/**
  bin/ca_spinwrite.c: the walk dirties every line it passes by writing its second int.
 */
module CaSpinWrite {
  import opened Permutations
  import opened Cycles
  import opened CaSpin

  /** The arena after writing the lines with the given indices. */
  ghost function Written(a: seq<Line>, visited: seq<int>): (r: seq<Line>)
    ensures |r| == |a|
    ensures forall k :: 0 <= k < |a| ==> r[k] == if k in visited then a[k][1 := k + 1] else a[k]
  {
    seq(|a|, k requires 0 <= k < |a| => if k in visited then a[k][1 := k + 1] else a[k])
  }

  /** The arena after a complete writing walk. */
  ghost function Dirtied(a: seq<Line>): (r: seq<Line>)
    ensures |r| == |a|
    ensures forall k :: 0 <= k < |a| ==> r[k] == a[k][1 := k + 1]
  {
    seq(|a|, k requires 0 <= k < |a| => a[k][1 := k + 1])
  }

  lemma WrittenSnoc(a: seq<Line>, visited: seq<int>, x: int)
    requires 0 <= x < |a|
    ensures Written(a, visited + [x]) == Written(a, visited)[x := Written(a, visited)[x][1 := x + 1]]
  {
    var w, v := Written(a, visited), Written(a, visited + [x]);
    assert v[x] == a[x][1 := x + 1] == a[x][1 := x + 1][1 := x + 1];
    forall k | 0 <= k < |a| && k != x ensures v[k] == w[k] {
      assert k in visited + [x] <==> k in visited;
    }
  }

  lemma WrittenEverywhere(a: seq<Line>, visited: seq<int>)
    requires Enumerates(visited, |a|)
    ensures Written(a, visited) == Dirtied(a)
  {
    forall k | 0 <= k < |a| ensures k in visited {
      var _ := PositionOf(visited, |a|, k);
    }
  }

  /** Writing leaves the cycle alone, puts k + 1 into line k, and is idempotent. */
  lemma DirtiedKeepsCycle(a: seq<Line>)
    ensures Column(Dirtied(a), 0) == Column(a, 0)
    ensures Dirtied(Dirtied(a)) == Dirtied(a)
    ensures forall k :: 0 <= k < |a| ==> Dirtied(a)[k][1] == k + 1
  {
    forall k | 0 <= k < |a| ensures Dirtied(Dirtied(a))[k] == Dirtied(a)[k] {
      assert a[k][1 := k + 1][1 := k + 1] == a[k][1 := k + 1];
    }
  }

  /** One iteration: write line[1] of the line, then follow its line[0]. */
  method DirtyAndFollow(arena: Arena, line: nat, ghost a: seq<Line>, ghost visited: seq<int>) returns (next: int)
    requires line < arena.lines.Length && arena.lines[..] == Written(a, visited)
    modifies arena.lines, arena`log, arena`written
    ensures arena.lines[..] == Written(a, visited + [line]) && next == a[line][0]
    ensures arena.log == old(arena.log) + [line] && arena.written == old(arena.written) + [line]
  {
    WrittenSnoc(a, visited, line);
    arena.WriteInt(line, 1, line + 1);
    assert arena.lines[..] == Written(a, visited + [line]);
    next := arena.ReadInt(line, 0);
  }

  /** ... in a walk from line mem that has passed the visited lines. */
  method WalkStep(arena: Arena, next: nat, sum: int, ghost a: seq<Line>, ghost mem: nat, ghost visited: seq<int>,
                  ghost log: seq<int>, ghost written: seq<int>)
    returns (next': nat, sum': int)
    requires InRange(Column(a, 0)) && WalkedTo(Column(a, 0), mem, |visited|, visited, sum, next)
    requires a != [] && arena.lines[..] == Written(a, visited)
    requires Grown(arena.log, log, visited) && Grown(arena.written, written, visited)
    modifies arena.lines, arena`log, arena`written
    ensures WalkedTo(Column(a, 0), mem, |visited| + 1, visited + [next], sum', next')
    ensures arena.lines[..] == Written(a, visited + [next])
    ensures Grown(arena.log, log, visited + [next]) && Grown(arena.written, written, visited + [next])
  {
    WalkedToNext(Column(a, 0), mem, |visited|, visited, sum, next);
    GrownMore(arena.log, log, visited, [next]);
    GrownMore(arena.written, written, visited, [next]);
    next' := DirtyAndFollow(arena, next, a, visited);
    sum' := sum + next';
  }

  /** Lines are read and written in the order of the cycle from mem on, each of them once. */
  method CachelineWalk(arena: Arena, mem: nat, wss: nat) returns (sum: int)
    requires arena.lines.Length == wss * CACHELINES_IN_1KB
    requires SingleCycle(Column(arena.lines[..], 0))
    requires mem < arena.lines.Length || wss == 0
    modifies arena.lines, arena`log, arena`written
    ensures arena.lines[..] == Dirtied(old(arena.lines[..]))
    ensures 2 * sum == arena.lines.Length * (arena.lines.Length - 1)
    ensures var n, p := arena.lines.Length, Column(old(arena.lines[..]), 0);
      && InRange(p) && Enumerates(Orbit(p, mem, n), n)
      && arena.log == old(arena.log) + Orbit(p, mem, n)
      && arena.written == old(arena.written) + Orbit(p, mem, n)
  {
    ghost var a := arena.lines[..];
    ghost var p := Column(a, 0);
    SingleCycleInRange(p);
    var numlines := wss * CACHELINES_IN_1KB;
    sum := 0;
    var next := mem;
    ghost var visited := [];
    for i := 0 to numlines
      invariant next >= 0 && i == |visited| && WalkedTo(p, mem, i, visited, sum, next)
      invariant arena.lines[..] == Written(a, visited)
      invariant Grown(arena.log, old(arena.log), visited) && Grown(arena.written, old(arena.written), visited)
    {
      ghost var more := visited + [next];
      next, sum := WalkStep(arena, next, sum, a, mem, visited, old(arena.log), old(arena.written));
      visited := more;
    }
    WalkedToEnd(p, mem, visited, sum, next);
    WrittenEverywhere(a, visited);
  }

  method LoopOnce(arena: Arena, wss: nat) returns (temp: int)
    requires arena.lines.Length == wss * CACHELINES_IN_1KB && SingleCycle(Column(arena.lines[..], 0))
    modifies arena.lines, arena`log, arena`written
    ensures arena.lines[..] == Dirtied(old(arena.lines[..]))
    ensures 2 * temp == arena.lines.Length * (arena.lines.Length - 1)
    ensures var n, p := arena.lines.Length, Column(old(arena.lines[..]), 0);
      && InRange(p) && Enumerates(Orbit(p, 0, n), n)
      && arena.log == old(arena.log) + Orbit(p, 0, n)
      && arena.written == old(arena.written) + Orbit(p, 0, n)
  {
    temp := CachelineWalk(arena, CachelineStart(), wss);
  }

  /** Any number of walks: the cycle survives each of them, and every line is written by each. */
  method LoopMany(arena: Arena, wss: nat, loops: nat)
    requires arena.lines.Length == wss * CACHELINES_IN_1KB && SingleCycle(Column(arena.lines[..], 0))
    modifies arena.lines, arena`log, arena`written
    ensures Column(arena.lines[..], 0) == Column(old(arena.lines[..]), 0)
    ensures loops > 0 ==> arena.lines[..] == Dirtied(old(arena.lines[..]))
    ensures var n, p := arena.lines.Length, Column(arena.lines[..], 0);
      && InRange(p) && EquallyOften(Repeated(Orbit(p, 0, n), loops), n, loops)
      && arena.log == old(arena.log) + Repeated(Orbit(p, 0, n), loops)
      && arena.written == old(arena.written) + Repeated(Orbit(p, 0, n), loops)
  {
    ghost var a, n := arena.lines[..], arena.lines.Length;
    ghost var p := Column(a, 0);
    SingleCycleInRange(p);
    DirtiedKeepsCycle(a);
    var iter := 0;
    while iter < loops
      invariant iter <= loops
      invariant arena.lines[..] == if iter == 0 then a else Dirtied(a)
      invariant Grown(arena.log, old(arena.log), Repeated(Orbit(p, 0, n), iter))
      invariant Grown(arena.written, old(arena.written), Repeated(Orbit(p, 0, n), iter))
    {
      GrownMore(arena.log, old(arena.log), Repeated(Orbit(p, 0, n), iter), Orbit(p, 0, n));
      GrownMore(arena.written, old(arena.written), Repeated(Orbit(p, 0, n), iter), Orbit(p, 0, n));
      var temp := LoopOnce(arena, wss);
      iter := iter + 1;
    }
    if n > 0 { FullWalk(p, 0); }
    RepeatedEquallyOften(Orbit(p, 0, n), n, loops);
  }
}
