/**
  bin/ca_spin.c: an arena of cache lines whose first int is the index of the next line, set
  up once and then walked over and over.
 */
module CaSpin {
  import opened Permutations
  import opened Cycles
  import opened Shuffle
  import opened RandRange
  import opened Quotients

  const CACHELINE_SIZE := 32  // also sizeof(cacheline_t)
  const SIZEOF_INT := 4
  const INTS_IN_CACHELINE := CACHELINE_SIZE / SIZEOF_INT
  const CACHELINES_IN_1KB := 1024 / CACHELINE_SIZE

  type Line = l: seq<int> | |l| == INTS_IN_CACHELINE witness [0, 0, 0, 0, 0, 0, 0, 0]

  /** A line is full of 4-byte ints, 8 of them, and lines fill memory without gaps. */
  lemma LineGeometry(l: Line, kb: nat)
    ensures 4 * |l| == 32 == CACHELINE_SIZE && INTS_IN_CACHELINE == 8
    ensures CACHELINE_SIZE * CACHELINES_IN_1KB == 1024
    ensures kb * 1024 / CACHELINE_SIZE == kb * CACHELINES_IN_1KB == 32 * kb
  {
  }

  function Filled(v: int): (l: Line)
    ensures forall j :: 0 <= j < INTS_IN_CACHELINE ==> l[j] == v
  {
    seq(INTS_IN_CACHELINE, _ => v)
  }

  /** The successor array held in one int of every line. */
  ghost function Column(a: seq<Line>, c: nat): (p: seq<int>)
    requires c < INTS_IN_CACHELINE
    ensures |p| == |a| && forall i :: 0 <= i < |a| ==> p[i] == a[i][c]
  {
    seq(|a|, i requires 0 <= i < |a| => a[i][c])
  }

  /** The arena as the walks use it. The ghost fields record which lines they have read and
      written, in order. */
  class Arena {
    const lines: array<Line>
    ghost var log: seq<int>
    ghost var written: seq<int>

    constructor (lines: array<Line>)
      ensures this.lines == lines && log == [] && written == []
    {
      this.lines := lines;
      log, written := [], [];
    }

    method ReadInt(i: int, c: nat) returns (v: int)
      requires 0 <= i < lines.Length && c < INTS_IN_CACHELINE
      modifies this`log
      ensures v == lines[i][c] && log == old(log) + [i]
    {
      log := log + [i];
      v := lines[i][c];
    }

    method WriteInt(i: int, c: nat, v: int)
      requires 0 <= i < lines.Length && c < INTS_IN_CACHELINE
      modifies lines, this`written
      ensures lines[..] == old(lines[..])[i := old(lines[i])[c := v]] && written == old(written) + [i]
    {
      written := written + [i];
      lines[i] := lines[i][c := v];
    }
  }

  method InitArena(arena: array<Line>, shuffle: bool, rng: RandSource)
    returns (ghost js: seq<int>, ghost ends: seq<nat>)
    requires shuffle ==> CanShuffle(rng.stream, arena.Length)
    modifies arena, rng
    ensures SingleCycle(Column(arena[..], 0))
    ensures forall i :: 0 <= i < arena.Length ==> arena[i] == Filled(arena[i][0])
    ensures shuffle ==> CompleteDraws(js, arena.Length)
                        && Column(arena[..], 0) == Shuffled(arena.Length, js)
    ensures shuffle ==> arena.Length <= rng.stream.randMax + 1
                        && DrawnFrom(rng.stream, old(rng.pos), arena.Length, js, ends)
                        && rng.pos == DrawStart(old(rng.pos), ends, |ends|)
    ensures !shuffle ==> js == [] && ends == [] && rng.pos == old(rng.pos)
                         && forall i :: 0 <= i < arena.Length ==> arena[i][0] == (i + 1) % arena.Length
  {
    var n := arena.Length;
    js, ends := [], [];
    if shuffle {
      FillWithOwnIndex(arena);
      ghost var lines := arena[..];
      js, ends := SwapLoop(arena, rng);
      SwapsMap(Identity(n), lines, Filled, n, js);
      assert Column(arena[..], 0) == Shuffled(n, js);
      ShuffledIsSingleCycle(n, js);
    } else {
      for i := 0 to n
        invariant rng.pos == old(rng.pos)
        invariant forall k :: 0 <= k < i ==> arena[k] == Filled((k + 1) % n)
      {
        var next := (i + 1) % n;
        FillLine(arena, i, next);
      }
      SequentialIsSingleCycle(Column(arena[..], 0));
    }
  }

  /** The `while (1 < i--)` loop: whole lines are exchanged. */
  method SwapLoop(arena: array<Line>, rng: RandSource) returns (ghost js: seq<int>, ghost ends: seq<nat>)
    requires CanShuffle(rng.stream, arena.Length)
    modifies arena, rng
    ensures CompleteDraws(js, arena.Length)
    ensures arena[..] == Swaps(old(arena[..]), arena.Length, js)
    ensures arena.Length <= rng.stream.randMax + 1
    ensures DrawnFrom(rng.stream, old(rng.pos), arena.Length, js, ends)
    ensures rng.pos == DrawStart(old(rng.pos), ends, |ends|)
  {
    var n := arena.Length;
    js, ends := [], [];
    SafeArenaFits(rng.stream.randMax, n);
    var i := n;
    while 1 < i
      invariant if n == 0 then i == 0 else 1 <= i <= n
      invariant |js| == n - i && ValidDraws(js, n)
      invariant arena[..] == Swaps(old(arena[..]), n, js)
      invariant DrawnFrom(rng.stream, old(rng.pos), n, js, ends)
      invariant rng.pos == DrawStart(old(rng.pos), ends, |ends|)
    {
      i := i - 1;
      var j, ends' := NextDraw(rng, n, i, old(rng.pos), js, ends);
      ExchangeNext(arena, i, j, old(arena[..]), js);
      js, ends := js + [j], ends';
    }
  }

  /** The exchange in the loop that has made the draws js since the arena was `start`. */
  method ExchangeNext(arena: array<Line>, i: nat, j: nat, ghost start: seq<Line>, ghost js: seq<int>)
    requires j < i < arena.Length == |start| && |js| == arena.Length - 1 - i && ValidDraws(js, arena.Length)
    requires arena[..] == Swaps(start, arena.Length, js)
    modifies arena
    ensures ValidDraws(js + [j], arena.Length) && arena[..] == Swaps(start, arena.Length, js + [j])
  {
    SwapsSnoc(start, arena.Length, js, j);
    ExchangeLines(arena, i, j);
  }

  method ExchangeLines(arena: array<Line>, i: nat, j: nat)
    requires i < arena.Length && j < arena.Length
    modifies arena
    ensures arena[..] == Swap(old(arena[..]), i, j)
  {
    var temp := arena[j];
    arena[j] := arena[i];
    arena[i] := temp;
  }

  /** The inner loop of both modes: all ints of line i become v. */
  method FillLine(arena: array<Line>, i: nat, v: int)
    requires i < arena.Length
    modifies arena
    ensures arena[..] == old(arena[..])[i := Filled(v)]
  {
    for j := 0 to INTS_IN_CACHELINE
      invariant forall k :: 0 <= k < arena.Length && k != i ==> arena[k] == old(arena[k])
      invariant forall k :: 0 <= k < j ==> arena[i][k] == v
    {
      arena[i] := arena[i][j := v];
    }
    assert arena[i] == Filled(v);
  }

  method FillWithOwnIndex(arena: array<Line>)
    modifies arena
    ensures forall i :: 0 <= i < arena.Length ==> arena[i] == Filled(i)
  {
    for i := 0 to arena.Length
      invariant forall k :: 0 <= k < i ==> arena[k] == Filled(k)
    {
      FillLine(arena, i, i);
    }
  }

  // ----- walking -----

  /** The sum a walk has accumulated after k steps: the indices it has stepped on to. */
  ghost function RunningSum(p: seq<int>, x: int, k: nat): int
    requires InRange(p) && 0 <= x < |p|
  {
    Sum(Orbit(p, p[x], k))
  }

  /** From any start line: the walk reads every line once, ends where it started, and its sum
      never leaves [0, n (n - 1) / 2]. */
  lemma FullWalkSum(p: seq<int>, x: int, k: nat)
    requires SingleCycle(p) && 0 <= x < |p| && k <= |p|
    ensures InRange(p)
    ensures 0 <= 2 * RunningSum(p, x, k) <= |p| * (|p| - 1) == 2 * RunningSum(p, x, |p|)
  {
    SingleCycleInRange(p);
    FullWalk(p, p[x]);
    var o := Orbit(p, p[x], |p|);
    EnumeratesSum(o, |p|);
    PrefixSumBounds(o, k);
    OrbitPrefix(p, p[x], k, |p|);
  }

  lemma {:induction false} OrbitPrefix(p: seq<int>, x: int, k: nat, n: nat)
    requires InRange(p) && 0 <= x < |p| && k <= n
    ensures Orbit(p, x, n)[..k] == Orbit(p, x, k)
    decreases k
  {
    if k > 0 {
      OrbitPrefix(p, p[x], k - 1, n - 1);
    }
  }

  /** No walk over an arena of n lines takes the accumulator out of int. */
  ghost predicate SumFits(n: nat) {
    forall p, x, k: nat :: |p| == n && 0 <= x < n && k <= n && SingleCycle(p) && InRange(p) ==>
      0 <= RunningSum(p, x, k) <= 0x7FFF_FFFF
  }

  /** The int accumulator is large enough for every partial sum of exactly those arenas. */
  lemma SumFitsIffAtMost64KLines(n: nat)
    ensures SumFits(n) <==> n <= 65536
  {
    if n <= 65536 {
      forall p, x, k: nat | |p| == n && 0 <= x < n && k <= n && SingleCycle(p) && InRange(p)
        ensures 0 <= RunningSum(p, x, k) <= 0x7FFF_FFFF
      {
        FullWalkSum(p, x, k);
        LinesFit(n);
      }
    } else {
      SumOverflows(n);
    }
  }

  lemma SumOverflows(n: nat)
    requires n > 65536
    ensures !SumFits(n)
  {
    var p := Shuffled(n, seq(n - 1, _ => 0));
    ShuffledIsSingleCycle(n, seq(n - 1, _ => 0));
    SingleCycleInRange(p);
    FullWalkSum(p, 0, n);
    LinesFit(n);
    assert RunningSum(p, 0, n) > 0x7FFF_FFFF;
  }

  lemma LinesFit(n: nat)
    ensures n * (n - 1) <= 2 * 0x7FFF_FFFF <==> n <= 65536
  {
    if n <= 65536 {
      if n > 0 { MulMonotone(n, n - 1, 65535); }
      MulMonotone(65535, n, 65536);
    } else {
      MulMonotone(n, 65536, n - 1);
      MulMonotone(65536, 65537, n);
    }
  }

  lemma StepSum(p: seq<int>, x: int, k: nat)
    requires InRange(p) && 0 <= x < |p|
    ensures RunningSum(p, x, k + 1) == RunningSum(p, x, k) + Walk(p, x, k + 1)
  {
    WalkSnoc(p, p[x], k);
    SumAppend(Orbit(p, p[x], k), [Walk(p, p[x], k)]);
    assert Sum([Walk(p, p[x], k)]) == Walk(p, p[x], k);
  }

  /** The locals of a walk from line x after i iterations. */
  ghost predicate WalkedTo(p: seq<int>, x: int, i: nat, visited: seq<int>, sum: int, next: int)
    requires InRange(p)
  {
    if |p| == 0 then i == 0 && visited == [] && sum == 0
    else 0 <= x < |p| && next == Walk(p, x, i) && visited == Orbit(p, x, i) && sum == RunningSum(p, x, i)
  }

  lemma WalkedToNext(p: seq<int>, x: int, i: nat, visited: seq<int>, sum: int, next: int)
    requires InRange(p) && WalkedTo(p, x, i, visited, sum, next) && |p| > 0
    ensures 0 <= next < |p|
    ensures WalkedTo(p, x, i + 1, visited + [next], sum + p[next], p[next])
  {
    WalkSnoc(p, x, i);
    StepSum(p, x, i);
  }

  lemma WalkedToEnd(p: seq<int>, x: int, visited: seq<int>, sum: int, next: int)
    requires SingleCycle(p) && InRange(p) && WalkedTo(p, x, |p|, visited, sum, next)
    ensures 2 * sum == |p| * (|p| - 1)
    ensures (|p| > 0 ==> 0 <= x < |p|) && visited == Orbit(p, x, |p|) && Enumerates(visited, |p|)
    ensures |p| > 0 ==> next == x
  {
    if |p| > 0 {
      FullWalkSum(p, x, |p|);
      FullWalk(p, x);
    }
  }

  /** The lines read are those of the cycle from mem on, each of them once. */
  method CachelineWalk(arena: Arena, mem: nat, wss: nat) returns (sum: int)
    requires arena.lines.Length == wss * CACHELINES_IN_1KB
    requires SingleCycle(Column(arena.lines[..], 0))
    requires mem < arena.lines.Length || wss == 0
    modifies arena`log
    ensures 2 * sum == arena.lines.Length * (arena.lines.Length - 1)
    ensures InRange(Column(arena.lines[..], 0))
    ensures arena.log == old(arena.log) + Orbit(Column(arena.lines[..], 0), mem, arena.lines.Length)
    ensures Enumerates(Orbit(Column(arena.lines[..], 0), mem, arena.lines.Length), arena.lines.Length)
  {
    ghost var p := Column(arena.lines[..], 0);
    SingleCycleInRange(p);
    var numlines := wss * CACHELINES_IN_1KB;
    sum := 0;
    var next := mem;
    ghost var visited := [];
    for i := 0 to numlines
      invariant next >= 0 && WalkedTo(p, mem, i, visited, sum, next)
      invariant arena.log == old(arena.log) + visited
    {
      WalkedToNext(p, mem, i, visited, sum, next);
      visited := visited + [next];
      next := arena.ReadInt(next, 0);
      sum := sum + next;
    }
    WalkedToEnd(p, mem, visited, sum, next);
  }

  function CachelineStart(): nat { 0 }

  method LoopOnce(arena: Arena, wss: nat) returns (temp: int)
    requires arena.lines.Length == wss * CACHELINES_IN_1KB
    requires SingleCycle(Column(arena.lines[..], 0))
    modifies arena`log
    ensures 2 * temp == arena.lines.Length * (arena.lines.Length - 1)
    ensures InRange(Column(arena.lines[..], 0))
    ensures arena.log == old(arena.log) + Orbit(Column(arena.lines[..], 0), 0, arena.lines.Length)
    ensures Enumerates(Orbit(Column(arena.lines[..], 0), 0, arena.lines.Length), arena.lines.Length)
  {
    var mem := CachelineStart();
    temp := CachelineWalk(arena, mem, wss);
  }
}
