/**
  bin/ca_spin_meng.c: the lines of a cache are threaded into one linked list in random order,
  which is then checked, warmed and measured by following `next`.
 */
module CaSpinMeng {
  import opened Permutations
  import opened Cycles
  import opened Shuffle
  import opened RandRange

  const NPAD := 7

  /** struct cache_line: a pointer and seven longs, 64 bytes in all */
  class CacheLine {
    var next: CacheLine?
    var pad: seq<int>

    constructor ()
      ensures next == null && |pad| == 7
    {
      next := null;
      pad := seq(NPAD, _ => 0);
    }
  }

  ghost predicate PadsSized(cache: seq<CacheLine>)
    reads cache
  {
    forall k :: 0 <= k < |cache| ==> |cache[k].pad| == NPAD
  }

  ghost function After(stops: seq<CacheLine>, t: nat): CacheLine?
    requires t < |stops|
  {
    if t + 1 < |stops| then stops[t + 1] else null
  }

  /** The stops, linked by `next` and ended by NULL. */
  ghost predicate IsChain(stops: seq<CacheLine>)
    reads stops
  {
    && |stops| >= 1 && Distinct(stops)
    && forall t :: 0 <= t < |stops| ==> stops[t].next == After(stops, t)
  }

  /** Behind the dummy head, the stops are the lines of the cache in the given order. */
  ghost predicate InOrder(stops: seq<CacheLine>, cache: seq<CacheLine>, order: seq<int>) {
    && Enumerates(order, |cache|) && |stops| == |cache| + 1
    && forall t :: 0 <= t < |cache| ==> stops[t + 1] == cache[order[t]]
  }

  /** Following `next` k times, as long as it leads to one of the given lines. */
  ghost function Follow(from: CacheLine, lines: set<CacheLine>, k: nat): CacheLine?
    reads from, lines
    decreases k
  {
    if k == 0 then from
    else if from.next == null || from.next !in lines then null
    else Follow(from.next, lines, k - 1)
  }

  lemma {:induction false} FollowChain(stops: seq<CacheLine>, lines: set<CacheLine>, s: nat, k: nat)
    requires IsChain(stops) && s + k < |stops|
    requires forall t :: 0 <= t < |stops| ==> stops[t] in lines
    ensures Follow(stops[s], lines, k) == stops[s + k]
    decreases k
  {
    if k > 0 {
      assert stops[s].next == After(stops, s) == stops[s + 1];
      FollowChain(stops, lines, s + 1, k - 1);
      assert Follow(stops[s], lines, k) == Follow(stops[s + 1], lines, k - 1);
    }
  }

  /** A chain over the cache meets each line after its own number of steps, never comes back to
      an earlier stop, and is over after as many steps as there are lines. */
  lemma ChainMeetsEveryLineOnce(stops: seq<CacheLine>, lines: set<CacheLine>, cache: seq<CacheLine>,
                                order: seq<int>, x: nat)
    returns (k: nat)
    requires IsChain(stops) && InOrder(stops, cache, order) && x < |cache|
    requires forall t :: 0 <= t < |stops| ==> stops[t] in lines
    ensures k <= |cache| && Follow(stops[0], lines, k) == cache[x]
    ensures forall j: nat :: j <= |cache| && j != k ==> Follow(stops[0], lines, j) != cache[x]
    ensures var last := Follow(stops[0], lines, |cache|); last != null && last.next == null
  {
    var t := PositionOf(order, |cache|, x);
    k := t + 1;
    forall j: nat | j <= |cache| ensures Follow(stops[0], lines, j) == stops[j] {
      FollowChain(stops, lines, 0, j);
    }
    assert stops[|cache|].next == After(stops, |cache|);
  }

  // ----- building -----

  /** Slot t is exchanged with slot ds[t], for t = 0, 1, ... */
  ghost function Exchanges(p: seq<int>, ds: seq<int>): (r: seq<int>)
    requires |ds| <= |p| && Below(ds, |p|)
    ensures |r| == |p|
    decreases |ds|
  {
    if ds == [] then p
    else var m := |ds| - 1; Swap(Exchanges(p, ds[..m]), m, ds[m])
  }

  lemma SwapEnumerates(p: seq<int>, n: nat, i: nat, j: nat)
    requires Enumerates(p, n) && i < n && j < n
    ensures Enumerates(Swap(p, i, j), n)
  {
  }

  lemma {:induction false} ExchangesEnumerate(n: nat, ds: seq<int>)
    requires |ds| <= n && Below(ds, n)
    ensures Enumerates(Exchanges(Identity(n), ds), n)
    decreases |ds|
  {
    if ds != [] {
      var m := |ds| - 1;
      ExchangesEnumerate(n, ds[..m]);
      SwapEnumerates(Exchanges(Identity(n), ds[..m]), n, m, ds[m]);
    }
  }

  /** The draws rand() % n of the next `count` numbers. */
  ghost function Draws(rng: RandSource, from: nat, count: nat, n: nat): (ds: seq<int>)
    requires n > 0
    ensures |ds| == count && Below(ds, n)
    ensures forall t :: 0 <= t < count ==> ds[t] == rng.stream.values(from + t) % n
  {
    seq(count, t requires 0 <= t < count => rng.stream.values(from + t) % n)
  }

  /** The index array: filled with 0, ..., n - 1, then every slot exchanged with a random one. */
  method RandomIndices(n: nat, rng: RandSource) returns (indices: array<int>)
    requires n > 0 && rng.stream.Valid()
    modifies rng
    ensures fresh(indices)
    ensures indices[..] == Exchanges(Identity(n), Draws(rng, old(rng.pos), n, n))
  {
    indices := OwnIndices(n);
    assert Draws(rng, old(rng.pos), 0, n) == [];
    for i := 0 to n
      invariant fresh(indices) && indices.Length == n && rng.pos == old(rng.pos) + i
      invariant indices[..] == Exchanges(Identity(n), Draws(rng, old(rng.pos), i, n))
    {
      ExchangeSlot(indices, i, rng, old(rng.pos));
    }
  }

  method ExchangeSlot(indices: array<int>, i: nat, rng: RandSource, ghost from: nat)
    requires i < indices.Length && rng.pos == from + i
    requires indices[..] == Exchanges(Identity(indices.Length), Draws(rng, from, i, indices.Length))
    modifies indices, rng
    ensures rng.pos == from + i + 1
    ensures indices[..] == Exchanges(Identity(indices.Length), Draws(rng, from, i + 1, indices.Length))
  {
    var r := rng.Rand();
    var tmp := r % indices.Length;
    DrawsSnoc(rng, from, i, indices.Length);
    ExchangesSnoc(Identity(indices.Length), Draws(rng, from, i, indices.Length), tmp);
    SwapSlots(indices, i, tmp);
  }

  method SwapSlots(a: array<int>, i: nat, j: nat)
    requires i < a.Length && j < a.Length
    modifies a
    ensures a[..] == Swap(old(a[..]), i, j)
  {
    a[i], a[j] := a[j], a[i];
  }

  lemma ExchangesSnoc(p: seq<int>, ds: seq<int>, d: nat)
    requires |ds| < |p| && Below(ds, |p|) && d < |p|
    ensures Exchanges(p, ds + [d]) == Swap(Exchanges(p, ds), |ds|, d)
  {
    assert (ds + [d])[..|ds|] == ds;
  }

  method OwnIndices(n: nat) returns (indices: array<int>)
    ensures fresh(indices) && indices[..] == Identity(n)
  {
    indices := new int[n];
    for i := 0 to n
      invariant forall k :: 0 <= k < i ==> indices[k] == k
    {
      indices[i] := i;
    }
  }

  lemma DrawsSnoc(rng: RandSource, from: nat, i: nat, n: nat)
    requires n > 0
    ensures Draws(rng, from, i + 1, n) == Draws(rng, from, i, n) + [rng.stream.values(from + i) % n]
  {
  }

  ghost function Stops(head: CacheLine, cache: seq<CacheLine>, order: seq<int>): (stops: seq<CacheLine>)
    requires Enumerates(order, |cache|)
    ensures InOrder(stops, cache, order) && stops[0] == head
  {
    [head] + seq(|cache|, t requires 0 <= t < |cache| => cache[order[t]])
  }

  lemma StopsDistinct(head: CacheLine, cache: seq<CacheLine>, order: seq<int>)
    requires Enumerates(order, |cache|) && Distinct(cache) && head !in cache
    ensures Distinct(Stops(head, cache, order))
  {
    var stops := Stops(head, cache, order);
    forall s, t | 0 <= s < t < |stops| ensures stops[s] != stops[t] {
      assert stops[t] == cache[order[t - 1]];
      if s > 0 {
        assert stops[s] == cache[order[s - 1]] && order[s - 1] != order[t - 1];
      }
    }
  }

  /** The lines are zeroed when this is called, so the last `next` is NULL already. The guard that
      skips indices beyond the array never fires. */
  method RandomFullEachLinePrepare(cache: seq<CacheLine>, rng: RandSource)
    returns (head: CacheLine, ghost stops: seq<CacheLine>, ghost order: seq<int>)
    requires |cache| > 0 && Distinct(cache) && rng.stream.Valid()
    requires forall c :: c in cache ==> c.next == null
    modifies cache`next, rng
    ensures fresh(head) && IsChain(stops) && InOrder(stops, cache, order) && stops[0] == head
    ensures order == Exchanges(Identity(|cache|), Draws(rng, old(rng.pos), |cache|, |cache|))
  {
    var n := |cache|;
    head := new CacheLine();
    var indices := RandomIndices(n, rng);
    order := indices[..];
    ExchangesEnumerate(n, Draws(rng, old(rng.pos), n, n));
    stops := Stops(head, cache, order);
    StopsDistinct(head, cache, order);
    Link(head, cache, indices, stops);
  }

  /** The loop that sets the `next` fields. */
  method Link(head: CacheLine, cache: seq<CacheLine>, indices: array<int>, ghost stops: seq<CacheLine>)
    requires InOrder(stops, cache, indices[..]) && stops[0] == head
    requires Distinct(stops) && forall t :: 0 <= t < |stops| ==> stops[t].next == null
    modifies stops`next
    ensures IsChain(stops)
  {
    var cur := head;
    for i := 0 to |cache|
      invariant cur == stops[i]
      invariant forall t :: 0 <= t < i ==> stops[t].next == stops[t + 1]
      invariant forall t :: i <= t < |stops| ==> stops[t].next == null
    {
      var index := indices[i];
      cur.next := cache[index];
      cur := cur.next;
    }
  }

  // ----- traversing -----

  /** Where the traversals read the pads; `log` grows by the line and the index of every read. */
  class Memory {
    ghost var log: seq<(CacheLine, nat)>

    constructor ()
      ensures log == []
    {
      log := [];
    }

    method ReadPad(line: CacheLine, i: nat) returns (v: int)
      requires i < |line.pad|
      modifies this
      ensures v == line.pad[i] && log == old(log) + [(line, i)]
    {
      log := log + [(line, i)];
      v := line.pad[i];
    }
  }

  ghost function LineReads(line: CacheLine, width: nat): (r: seq<(CacheLine, nat)>)
    ensures |r| == width && forall i :: 0 <= i < width ==> r[i] == (line, i)
  {
    if width == 0 then [] else LineReads(line, width - 1) + [(line, width - 1)]
  }

  /** The first `width` pads of each line, line after line. */
  ghost function PadReads(lines: seq<CacheLine>, width: nat): seq<(CacheLine, nat)> {
    if lines == [] then []
    else var m := |lines| - 1; PadReads(lines[..m], width) + LineReads(lines[m], width)
  }

  lemma PadReadsNext(lines: seq<CacheLine>, m: nat, width: nat)
    requires m < |lines|
    ensures PadReads(lines[..m + 1], width) == PadReads(lines[..m], width) + LineReads(lines[m], width)
  {
    assert lines[..m + 1][..m] == lines[..m];
  }

  /** In such a traversal of distinct lines read number width * t + i is pad i of line t; so each
      of these pads is read once. */
  lemma {:induction false} PadReadsAt(lines: seq<CacheLine>, width: nat, t: nat, i: nat)
    requires t < |lines| && i < width
    ensures |PadReads(lines, width)| == width * |lines| && width * t + i < width * |lines|
    ensures PadReads(lines, width)[width * t + i] == (lines[t], i)
    decreases |lines|
  {
    var m := |lines| - 1;
    PadReadsLength(lines, width);
    PadReadsLength(lines[..m], width);
    ReadIndex(width, |lines|, t, i);
    if t < m {
      PadReadsAt(lines[..m], width, t, i);
    } else {
      assert t == m;
      assert width * t == |PadReads(lines[..m], width)|;
    }
  }

  lemma ReadIndex(width: nat, count: nat, t: nat, i: nat)
    requires t < count && i < width
    ensures width * t + i < width * count
  {
    assert width * (t + 1) <= width * count;
  }

  lemma {:induction false} PadReadsLength(lines: seq<CacheLine>, width: nat)
    ensures |PadReads(lines, width)| == width * |lines|
    decreases |lines|
  {
    if lines != [] {
      var m := |lines| - 1;
      PadReadsLength(lines[..m], width);
      assert width * (m + 1) == width * m + width;
    }
  }

  /** Line k carries the number k in all its pads. */
  ghost predicate Labelled(cache: seq<CacheLine>)
    reads cache
  {
    forall k :: 0 <= k < |cache| ==> |cache[k].pad| == NPAD && forall j :: 0 <= j < NPAD ==> cache[k].pad[j] == k
  }

  method SanityCheckAccessPattern(cache: seq<CacheLine>, head: CacheLine,
                                  ghost stops: seq<CacheLine>, ghost order: seq<int>, mem: Memory)
    returns (ret: int, count: nat, sum1: int, sum2: int)
    requires Distinct(cache) && PadsSized(cache)
    requires IsChain(stops) && InOrder(stops, cache, order) && head == stops[0]
    modifies cache`pad, mem
    ensures Labelled(cache) && mem.log == old(mem.log) + PadReads(stops[1..], 1)
    ensures ret == 0 && count == |cache|
    ensures 2 * sum1 == 2 * sum2 == |cache| * (|cache| - 1)
  {
    sum1 := LabelLines(cache);
    count, sum2 := SumList(head, cache, stops, order, mem);
    ret := 0;
  }

  /** The first loop of the check: every line is labelled with its index. */
  method LabelLines(cache: seq<CacheLine>) returns (sum1: int)
    requires Distinct(cache) && PadsSized(cache)
    modifies cache`pad
    ensures Labelled(cache)
    ensures 2 * sum1 == |cache| * (|cache| - 1)
  {
    sum1 := 0;
    for i := 0 to |cache|
      invariant PadsSized(cache)
      invariant forall k :: 0 <= k < i ==> forall j :: 0 <= j < NPAD ==> cache[k].pad[j] == k
      invariant 2 * sum1 == i * (i - 1)
    {
      for j := 0 to NPAD
        invariant PadsSized(cache)
        invariant forall k :: 0 <= k < i ==> forall j :: 0 <= j < NPAD ==> cache[k].pad[j] == k
        invariant forall k :: 0 <= k < j ==> cache[i].pad[k] == i
      {
        cache[i].pad := cache[i].pad[j := i];
      }
      sum1 := sum1 + i;
    }
  }

  lemma PrefixSumStep(s: seq<int>, k: nat)
    requires k < |s|
    ensures Sum(s[..k + 1]) == Sum(s[..k]) + s[k]
  {
    SumAppend(s[..k], [s[k]]);
    assert s[..k + 1] == s[..k] + [s[k]];
    assert Sum([s[k]]) == s[k];
  }

  /** The walk of the check and of each measuring pass: follow `next`, add up the labels. */
  method SumList(head: CacheLine, ghost cache: seq<CacheLine>, ghost stops: seq<CacheLine>, ghost order: seq<int>,
                 mem: Memory)
    returns (count: nat, sum: int)
    requires IsChain(stops) && InOrder(stops, cache, order) && head == stops[0] && Labelled(cache)
    modifies mem
    ensures count == |cache| && 2 * sum == |cache| * (|cache| - 1)
    ensures mem.log == old(mem.log) + PadReads(stops[1..], 1)
  {
    var cur := head;
    count, sum := 0, 0;
    assert order[..0] == [];
    while cur.next != null
      invariant count < |stops| && cur == stops[count]
      invariant sum == Sum(order[..count])
      invariant Grown(mem.log, old(mem.log), PadReads(stops[1..][..count], 1))
      decreases |stops| - count
    {
      PrefixSumStep(order, count);
      PadReadsNext(stops[1..], count, 1);
      GrownMore(mem.log, old(mem.log), PadReads(stops[1..][..count], 1), [(cur.next, 0)]);
      assert LineReads(cur.next, 1) == [(cur.next, 0)];
      assert cur.next == cache[order[count]];
      var number := mem.ReadPad(cur.next, 0);
      sum := sum + number;
      cur := cur.next;
      count := count + 1;
    }
    assert order[..|cache|] == order && stops[1..][..|cache|] == stops[1..];
    EnumeratesSum(order, |cache|);
  }

  /** Reads all pads of all lines in list order; the sum is thrown away. */
  method WarmCache(head: CacheLine, ghost stops: seq<CacheLine>, mem: Memory) returns (ret: int)
    requires IsChain(stops) && head == stops[0] && PadsSized(stops[1..])
    modifies mem
    ensures ret == 0 && mem.log == old(mem.log) + PadReads(stops[1..], 7)
  {
    var cur := head;
    var sum := 0;
    ghost var t := 0;
    while cur.next != null
      invariant t < |stops| && cur == stops[t]
      invariant Grown(mem.log, old(mem.log), PadReads(stops[1..][..t], NPAD))
      decreases |stops| - t
    {
      assert cur.next == stops[1..][t];
      PadReadsNext(stops[1..], t, NPAD);
      GrownMore(mem.log, old(mem.log), PadReads(stops[1..][..t], NPAD), LineReads(cur.next, NPAD));
      sum := SumPads(cur.next, sum, mem);
      cur := cur.next;
      t := t + 1;
    }
    assert stops[1..][..t] == stops[1..];
    ret := 0;
  }

  /** The loop over the pads of one line. */
  method SumPads(line: CacheLine, start: int, mem: Memory) returns (sum: int)
    requires |line.pad| == NPAD
    modifies mem
    ensures mem.log == old(mem.log) + LineReads(line, NPAD)
  {
    sum := start;
    for i := 0 to NPAD
      invariant mem.log == old(mem.log) + LineReads(line, i)
    {
      var number := mem.ReadPad(line, i);
      sum := sum + number;
    }
  }

  method MeasureEachLineAccessPattern(head: CacheLine, numIterations: int, ghost cache: seq<CacheLine>,
                                      ghost stops: seq<CacheLine>, ghost order: seq<int>, mem: Memory)
    returns (sum: int)
    requires IsChain(stops) && InOrder(stops, cache, order) && head == stops[0] && Labelled(cache)
    modifies mem
    ensures if numIterations >= 1 then 2 * sum == |cache| * (|cache| - 1) else sum == 0
    ensures mem.log == old(mem.log) + Repeated(PadReads(stops[1..], 1), if numIterations >= 1 then numIterations else 0)
  {
    sum := 0;
    var k := 0;
    while k < numIterations
      invariant 0 <= k && (k > 0 ==> k <= numIterations)
      invariant if k > 0 then 2 * sum == |cache| * (|cache| - 1) else sum == 0
      invariant mem.log == old(mem.log) + Repeated(PadReads(stops[1..], 1), k)
    {
      var _, passSum := SumList(head, cache, stops, order, mem);
      sum := passSum;
      k := k + 1;
    }
  }
}
