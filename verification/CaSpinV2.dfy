/**
  bin/ca_spin_v2.c: two successor arrays share the lines of one arena. line[0] enumerates the
  whole arena, line[1] its first hot_wss_B bytes.
 */
module CaSpinV2 {
  import opened Permutations
  import opened Cycles
  import opened Shuffle
  import opened RandRange
  import opened CaSpin

  /** The number of whole lines in the first hotWssB bytes: 32 bytes, or all ints of a line, each. */
  function HotLines(hotWssB: nat): (h: nat)
    ensures 32 * h <= hotWssB < 32 * (h + 1)
    ensures h == hotWssB / (4 * INTS_IN_CACHELINE)
    ensures forall kb: nat :: hotWssB == kb * 1024 ==> h == 32 * kb
  {
    hotWssB / CACHELINE_SIZE
  }

  /** line[1] of the first h lines is a cycle of its own. */
  ghost predicate HotCycle(p: seq<int>, h: nat) {
    h <= |p| && SingleCycle(p[..h])
  }

  /** line[1] of the first h lines counts upwards, wrapping after all lines, not after h. */
  ghost predicate HotSequential(p: seq<int>, h: nat) {
    h <= |p| && forall i :: 0 <= i < h ==> p[i] == (i + 1) % |p|
  }

  /** Columns other than c are those of b. */
  ghost predicate SameButColumn(a: seq<Line>, b: seq<Line>, c: nat)
    requires c < INTS_IN_CACHELINE
  {
    |a| == |b| && forall i :: 0 <= i < |a| ==> a[i] == b[i][c := a[i][c]]
  }

  method ExchangeInts(arena: array<Line>, c: nat, i: nat, j: nat)
    requires i < arena.Length && j < arena.Length && c < INTS_IN_CACHELINE
    modifies arena
    ensures Column(arena[..], c) == Swap(Column(old(arena[..]), c), i, j)
    ensures SameButColumn(arena[..], old(arena[..]), c)
  {
    var temp := arena[j][c];
    arena[j] := arena[j][c := arena[i][c]];
    arena[i] := arena[i][c := temp];
  }

  lemma SameButColumnTrans(x: seq<Line>, y: seq<Line>, z: seq<Line>, c: nat)
    requires c < INTS_IN_CACHELINE && SameButColumn(x, y, c) && SameButColumn(y, z, c)
    ensures SameButColumn(x, z, c)
  {
    forall i | 0 <= i < |x| ensures x[i] == z[i][c := x[i][c]] {
      assert x[i] == z[i][c := y[i][c]][c := x[i][c]];
    }
  }

  /** `i = m; while (1 < i--)` on int c of the first m lines. */
  method SwapLoop(arena: array<Line>, c: nat, m: nat, rng: RandSource)
    returns (ghost js: seq<int>, ghost ends: seq<nat>)
    requires m <= arena.Length && c < INTS_IN_CACHELINE && CanShuffle(rng.stream, m)
    modifies arena, rng
    ensures CompleteDraws(js, m)
    ensures Column(arena[..], c) == Swaps(Column(old(arena[..]), c), m, js)
    ensures SameButColumn(arena[..], old(arena[..]), c)
    ensures m <= rng.stream.randMax + 1
    ensures DrawnFrom(rng.stream, old(rng.pos), m, js, ends)
    ensures rng.pos == DrawStart(old(rng.pos), ends, |ends|)
  {
    js, ends := [], [];
    SafeArenaFits(rng.stream.randMax, m);
    var i := m;
    while 1 < i
      invariant if m == 0 then i == 0 else 1 <= i <= m
      invariant |js| == m - i && ValidDraws(js, m)
      invariant Column(arena[..], c) == Swaps(Column(old(arena[..]), c), m, js)
      invariant SameButColumn(arena[..], old(arena[..]), c)
      invariant DrawnFrom(rng.stream, old(rng.pos), m, js, ends)
      invariant rng.pos == DrawStart(old(rng.pos), ends, |ends|)
    {
      i := i - 1;
      var j, ends' := NextDraw(rng, m, i, old(rng.pos), js, ends);
      ExchangeNext(arena, c, m, i, j, old(arena[..]), js);
      js, ends := js + [j], ends';
    }
  }

  /** The exchange in the loop that has made the draws js since the arena was `start`. */
  method ExchangeNext(arena: array<Line>, c: nat, m: nat, i: nat, j: nat, ghost start: seq<Line>, ghost js: seq<int>)
    requires j < i < m <= arena.Length == |start| && c < INTS_IN_CACHELINE
    requires |js| == m - 1 - i && ValidDraws(js, m)
    requires Column(arena[..], c) == Swaps(Column(start, c), m, js) && SameButColumn(arena[..], start, c)
    modifies arena
    ensures ValidDraws(js + [j], m)
    ensures Column(arena[..], c) == Swaps(Column(start, c), m, js + [j]) && SameButColumn(arena[..], start, c)
  {
    ghost var before := arena[..];
    SwapsSnoc(Column(start, c), m, js, j);
    ExchangeInts(arena, c, i, j);
    SameButColumnTrans(arena[..], before, start, c);
  }

  /** Shuffling the first m slots of the identity leaves the others alone. */
  lemma SwapsOfIdentityPrefix(n: nat, m: nat, js: seq<int>)
    requires m <= n && CompleteDraws(js, m)
    ensures Swaps(Identity(n), m, js) == Shuffled(m, js) + Identity(n)[m..]
    ensures Swaps(Identity(n), m, js)[..m] == Shuffled(m, js)
    ensures HotCycle(Swaps(Identity(n), m, js), m)
  {
    SwapsLocal(Identity(n), m, m, js);
    assert Identity(n)[..m] == Identity(m);
    ShuffledIsSingleCycle(m, js);
    assert Swaps(Identity(n), m, js)[..m] == Shuffled(m, js);
  }

  method InitShuffled(arena: array<Line>, h: nat, rng: RandSource)
    returns (ghost js: seq<int>, ghost hot: seq<int>, ghost ends: seq<nat>, ghost hotEnds: seq<nat>)
    requires h <= arena.Length && CanShuffle(rng.stream, arena.Length)
    modifies arena, rng
    ensures CompleteDraws(js, arena.Length) && CompleteDraws(hot, h)
    ensures Column(arena[..], 0) == Shuffled(arena.Length, js)
    ensures Column(arena[..], 1) == Swaps(Identity(arena.Length), h, hot)
    ensures forall i, c :: 0 <= i < arena.Length && 2 <= c < INTS_IN_CACHELINE ==> arena[i][c] == i
    ensures arena.Length <= rng.stream.randMax + 1
    ensures DrawnFrom(rng.stream, old(rng.pos), arena.Length, js, ends)
    ensures DrawnFrom(rng.stream, DrawStart(old(rng.pos), ends, |ends|), h, hot, hotEnds)
  {
    FillWithOwnIndex(arena);
    ghost var filled := arena[..];
    assert Column(filled, 0) == Column(filled, 1) == Identity(arena.Length);
    js, ends := SwapLoop(arena, 0, arena.Length, rng);
    ghost var half := arena[..];
    assert Column(half, 1) == Column(filled, 1);
    hot, hotEnds := SwapLoop(arena, 1, h, rng);
    assert Column(arena[..], 0) == Column(half, 0);
    forall i, c | 0 <= i < arena.Length && 2 <= c < INTS_IN_CACHELINE ensures arena[i][c] == i {
      assert arena[i][c] == half[i][c] == filled[i][c];
    }
  }

  method InitArena(arena: array<Line>, hotWssB: nat, shuffle: bool, rng: RandSource)
    returns (ghost js: seq<int>, ghost hot: seq<int>, ghost ends: seq<nat>, ghost hotEnds: seq<nat>)
    requires HotLines(hotWssB) <= arena.Length  // the hot lines are lines of the arena
    requires shuffle ==> CanShuffle(rng.stream, arena.Length)
    modifies arena, rng
    ensures SingleCycle(Column(arena[..], 0))
    ensures if shuffle then HotCycle(Column(arena[..], 1), HotLines(hotWssB))
                       else HotSequential(Column(arena[..], 1), HotLines(hotWssB))
    ensures shuffle ==>
      && arena.Length <= rng.stream.randMax + 1
      && DrawnFrom(rng.stream, old(rng.pos), arena.Length, js, ends)
      && DrawnFrom(rng.stream, DrawStart(old(rng.pos), ends, |ends|), HotLines(hotWssB), hot, hotEnds)
      && CompleteDraws(js, arena.Length) && CompleteDraws(hot, HotLines(hotWssB))
      && Column(arena[..], 0) == Shuffled(arena.Length, js)
      && Column(arena[..], 1)[..HotLines(hotWssB)] == Shuffled(HotLines(hotWssB), hot)
    ensures !shuffle ==> forall i, c :: 0 <= i < arena.Length && 2 <= c < INTS_IN_CACHELINE
                                        ==> arena[i][c] == old(arena[i][c])
  {
    var n := arena.Length;
    var h := HotLines(hotWssB);
    if shuffle {
      js, hot, ends, hotEnds := InitShuffled(arena, h, rng);
      ShuffledIsSingleCycle(n, js);
      SwapsOfIdentityPrefix(n, h, hot);
    } else {
      js, hot, ends, hotEnds := [], [], [], [];
      for i := 0 to n
        invariant forall k :: 0 <= k < n ==>
          arena[k] == if k < i then old(arena[k])[0 := (k + 1) % n] else old(arena[k])
      {
        var next := (i + 1) % n;
        arena[i] := arena[i][0 := next];
      }
      SequentialIsSingleCycle(Column(arena[..], 0));
      for i := 0 to h
        invariant forall k :: 0 <= k < n ==>
          arena[k] == if k < i then old(arena[k])[0 := (k + 1) % n][1 := (k + 1) % n]
                               else old(arena[k])[0 := (k + 1) % n]
      {
        var next := (i + 1) % n;
        arena[i] := arena[i][1 := next];
      }
      SequentialIsSingleCycle(Column(arena[..], 0));
    }
  }

  /** The walk over the whole arena subtracts where ca_spin adds. */
  method CachelineWalk(arena: Arena, mem: nat, wss: nat) returns (sum: int)
    requires arena.lines.Length == wss * CACHELINES_IN_1KB
    requires SingleCycle(Column(arena.lines[..], 0))
    requires mem < arena.lines.Length || wss == 0
    modifies arena`log
    ensures -2 * sum == arena.lines.Length * (arena.lines.Length - 1)
    ensures InRange(Column(arena.lines[..], 0))
    ensures arena.log == old(arena.log) + Orbit(Column(arena.lines[..], 0), mem, arena.lines.Length)
    ensures Enumerates(Orbit(Column(arena.lines[..], 0), mem, arena.lines.Length), arena.lines.Length)
  {
    ghost var p := Column(arena.lines[..], 0);
    SingleCycleInRange(p);
    var numlines := wss * CACHELINES_IN_1KB;
    sum := 0;
    var next := mem;
    ghost var visited := [];
    for i := 0 to numlines
      invariant next >= 0 && WalkedTo(p, mem, i, visited, -sum, next)
      invariant arena.log == old(arena.log) + visited
    {
      WalkedToNext(p, mem, i, visited, -sum, next);
      visited := visited + [next];
      next := arena.ReadInt(next, 0);
      sum := sum - next;
    }
    WalkedToEnd(p, mem, visited, -sum, next);
  }

  /** The hot walk starts at line 0, follows line[1], and reads lines 0, ..., h - 1 once each in
      both modes. Only the sums differ: in sequential mode the last step may leave the hot lines
      for line h. */
  method CachelineWalkHot(arena: Arena, hotWssB: nat) returns (sum: int, ghost visited: seq<int>)
    requires var h, p := HotLines(hotWssB), Column(arena.lines[..], 1); HotCycle(p, h) || HotSequential(p, h)
    modifies arena`log
    ensures var h, p := HotLines(hotWssB), Column(arena.lines[..], 1);
      && arena.log == old(arena.log) + visited
      && IsTrail(p, 0, visited) && Enumerates(visited, h)
      && 2 * sum == if HotCycle(p, h) then h * (h - 1) else h * (h + 1)
  {
    var numHotLines := HotLines(hotWssB);
    ghost var p := Column(arena.lines[..], 1);
    ghost var cycle := HotCycle(p, numHotLines);
    if cycle { SingleCycleInRange(p[..numHotLines]); }
    sum, visited := 0, [];
    var next := 0;
    for i := 0 to numHotLines
      invariant HotWalkedTo(p, numHotLines, i, visited, sum, next)
      invariant arena.log == old(arena.log) + visited
    {
      HotWalkedToNext(p, numHotLines, i, visited, sum, next);
      visited := visited + [next];
      next := arena.ReadInt(next, 1);
      sum := sum + next;
    }
    HotWalkedToEnd(p, numHotLines, visited, sum, next);
  }

  /** The locals of a hot walk after i iterations, in either mode. */
  ghost predicate HotWalkedTo(p: seq<int>, h: nat, i: nat, visited: seq<int>, sum: int, next: int) {
    if HotCycle(p, h) then InRange(p[..h]) && WalkedTo(p[..h], 0, i, visited, sum, next)
    else CountedTo(|p|, i, visited, sum, next)
  }

  lemma HotWalkedToNext(p: seq<int>, h: nat, i: nat, visited: seq<int>, sum: int, next: int)
    requires (HotCycle(p, h) || HotSequential(p, h)) && i < h && HotWalkedTo(p, h, i, visited, sum, next)
    ensures 0 <= next < h
    ensures HotWalkedTo(p, h, i + 1, visited + [next], sum + p[next], p[next])
  {
    if HotCycle(p, h) {
      WalkedToNext(p[..h], 0, i, visited, sum, next);
    } else {
      CountedToNext(p, h, i, visited, sum, next);
    }
  }

  lemma HotWalkedToEnd(p: seq<int>, h: nat, visited: seq<int>, sum: int, next: int)
    requires (HotCycle(p, h) || HotSequential(p, h)) && HotWalkedTo(p, h, h, visited, sum, next)
    ensures IsTrail(p, 0, visited) && Enumerates(visited, h)
    ensures 2 * sum == if HotCycle(p, h) then h * (h - 1) else h * (h + 1)
  {
    if HotCycle(p, h) {
      WalkedToEnd(p[..h], 0, visited, sum, next);
      OrbitIsTrail(p[..h], 0, h);
      TrailOfPrefix(p, h, 0, visited);
    } else {
      CountingIsTrail(p, h);
      if h == |p| {
        assert p[..h] == p;
        SequentialIsSingleCycle(p);
      }
    }
  }

  lemma TrailOfPrefix(p: seq<int>, h: nat, x: int, v: seq<int>)
    requires h <= |p| && IsTrail(p[..h], x, v)
    ensures IsTrail(p, x, v)
  {
  }

  lemma CountingIsTrail(p: seq<int>, h: nat)
    requires HotSequential(p, h)
    ensures IsTrail(p, 0, Identity(h))
  {
    forall t | 0 <= t < h - 1 ensures Identity(h)[t + 1] == p[Identity(h)[t]] {
      ModNext(t, |p|);
    }
  }

  /** The first loop of a job. */
  method FullLoops(arena: Arena, wss: nat, loops: nat)
    requires arena.lines.Length == wss * CACHELINES_IN_1KB && SingleCycle(Column(arena.lines[..], 0))
    modifies arena`log
    ensures var n, p := arena.lines.Length, Column(arena.lines[..], 0);
      InRange(p) && Enumerates(Orbit(p, 0, n), n) && arena.log == old(arena.log) + Repeated(Orbit(p, 0, n), loops)
  {
    ghost var p, n := Column(arena.lines[..], 0), arena.lines.Length;
    SingleCycleInRange(p);
    if n > 0 { FullWalk(p, 0); }
    var iter := 0;
    while iter < loops
      invariant iter <= loops && Grown(arena.log, old(arena.log), Repeated(Orbit(p, 0, n), iter))
    {
      GrownMore(arena.log, old(arena.log), Repeated(Orbit(p, 0, n), iter), Orbit(p, 0, n));
      var temp := CachelineWalk(arena, 0, wss);
      iter := iter + 1;
    }
  }

  /** The second loop of a job: all hot walks take the same trail. */
  method HotLoops(arena: Arena, hotWssB: nat, hotLoops: nat) returns (ghost hot: seq<int>)
    requires var h, p := HotLines(hotWssB), Column(arena.lines[..], 1); HotCycle(p, h) || HotSequential(p, h)
    modifies arena`log
    ensures IsTrail(Column(arena.lines[..], 1), 0, hot) && Enumerates(hot, HotLines(hotWssB))
    ensures arena.log == old(arena.log) + Repeated(hot, hotLoops)
  {
    hot := HotTrail(Column(arena.lines[..], 1), HotLines(hotWssB));
    var iter := 0;
    while iter < hotLoops
      invariant iter <= hotLoops && Grown(arena.log, old(arena.log), Repeated(hot, iter))
    {
      GrownMore(arena.log, old(arena.log), Repeated(hot, iter), hot);
      var temp, walk := CachelineWalkHot(arena, hotWssB);
      TrailUnique(Column(arena.lines[..], 1), 0, walk, hot);
      iter := iter + 1;
    }
  }

  /** One job: `loops` full walks, then `hotLoops` hot ones. Hot lines are read by both kinds of walk,
      the others by full walks only. */
  method Job(arena: Arena, wss: nat, hotWssB: nat, loops: nat, hotLoops: nat) returns (ghost hot: seq<int>)
    requires arena.lines.Length == wss * CACHELINES_IN_1KB && SingleCycle(Column(arena.lines[..], 0))
    requires var h, p := HotLines(hotWssB), Column(arena.lines[..], 1); HotCycle(p, h) || HotSequential(p, h)
    modifies arena`log
    ensures |hot| == HotLines(hotWssB) && IsTrail(Column(arena.lines[..], 1), 0, hot)
    ensures var n, p := arena.lines.Length, Column(arena.lines[..], 0);
      && InRange(p)
      && arena.log == old(arena.log) + Repeated(Orbit(p, 0, n), loops) + Repeated(hot, hotLoops)
      && ReadCounts(Repeated(Orbit(p, 0, n), loops) + Repeated(hot, hotLoops), n, |hot|, loops, hotLoops)
  {
    FullLoops(arena, wss, loops);
    hot := HotLoops(arena, hotWssB, hotLoops);
    CountReads(Orbit(Column(arena.lines[..], 0), 0, arena.lines.Length), hot, arena.lines.Length,
               HotLines(hotWssB), loops, hotLoops);
  }

  /** There is a trail through the hot lines. */
  lemma HotTrail(p: seq<int>, h: nat) returns (v: seq<int>)
    requires HotCycle(p, h) || HotSequential(p, h)
    ensures IsTrail(p, 0, v) && Enumerates(v, h)
  {
    if HotCycle(p, h) {
      SingleCycleInRange(p[..h]);
      v := Orbit(p[..h], 0, h);
      if h > 0 { FullWalk(p[..h], 0); }
      OrbitIsTrail(p[..h], 0, h);
      TrailOfPrefix(p, h, 0, v);
    } else {
      v := Identity(h);
      CountingIsTrail(p, h);
    }
  }

  ghost predicate ReadCounts(log: seq<int>, n: nat, h: nat, loops: nat, hotLoops: nat) {
    forall y :: 0 <= y < n ==> multiset(log)[y] == loops + if y < h then hotLoops else 0
  }

  lemma CountReads(full: seq<int>, hot: seq<int>, n: nat, h: nat, loops: nat, hotLoops: nat)
    requires Enumerates(full, n) && Enumerates(hot, h)
    ensures ReadCounts(Repeated(full, loops) + Repeated(hot, hotLoops), n, h, loops, hotLoops)
  {
    RepeatedEquallyOften(full, n, loops);
    RepeatedEquallyOften(hot, h, hotLoops);
    forall y | 0 <= y < n
      ensures multiset(Repeated(full, loops) + Repeated(hot, hotLoops))[y] == loops + if y < h then hotLoops else 0
    {
      assert y >= h ==> y !in Repeated(hot, hotLoops);
    }
  }

  /** The locals of a hot walk through sequential lines. */
  ghost predicate CountedTo(n: nat, i: nat, visited: seq<int>, sum: int, next: int) {
    && i <= n && visited == Identity(i)
    && next == (if i == n then 0 else i)
    && 2 * sum == if i == n then n * (n - 1) else i * (i + 1)
  }

  lemma CountedToNext(p: seq<int>, h: nat, i: nat, visited: seq<int>, sum: int, next: int)
    requires HotSequential(p, h) && i < h && CountedTo(|p|, i, visited, sum, next)
    ensures next == i
    ensures CountedTo(|p|, i + 1, visited + [next], sum + p[i], p[i])
  {
    ModNext(i, |p|);
    ProductStep(i);
  }

  lemma ProductStep(i: nat)
    ensures (i + 1) * (i + 2) == i * (i + 1) + 2 * (i + 1)
  {
  }
}
