/**
  The timespec arithmetic of bin/uncache.c.
 */
module Timespec {

  datatype Timespec = Timespec(sec: int, nsec: int)

  /** A struct timespec that is written through a pointer. */
  class TimespecVar {
    var tv: Timespec

    constructor ()
    {
      tv := Timespec(0, 0);
    }
  }

  ghost predicate Canonical(ts: Timespec) {
    0 <= ts.nsec < 1_000_000_000
  }

  /** ts is what timespec_normalize makes of sec seconds and nsec nanoseconds: the same time, with
      the nanoseconds of at most one second. Both ends of [0, 10^9] are possible: the loop that
      carries upwards stops at a whole second, the one that borrows stops at 0. */
  ghost predicate Normalizes(ts: Timespec, sec: int, nsec: int) {
    && ts.sec * 1_000_000_000 + ts.nsec == sec * 1_000_000_000 + nsec
    && (0 <= nsec <= 1_000_000_000 ==> ts.nsec == nsec)
    && (nsec > 1_000_000_000 ==> 0 < ts.nsec <= 1_000_000_000)
    && (nsec < 0 ==> 0 <= ts.nsec < 1_000_000_000)
  }

  method TimespecNormalize(ts: TimespecVar, sec0: int, nsec0: int)
    modifies ts
    ensures Normalizes(ts.tv, sec0, nsec0)
  {
    var sec, nsec := sec0, nsec0;
    while nsec > 1_000_000_000
      invariant sec * 1_000_000_000 + nsec == sec0 * 1_000_000_000 + nsec0
      invariant if nsec0 > 1_000_000_000 then 0 < nsec else nsec == nsec0
      decreases nsec
    {
      nsec := nsec - 1_000_000_000;
      sec := sec + 1;
    }
    while nsec < 0
      invariant sec * 1_000_000_000 + nsec == sec0 * 1_000_000_000 + nsec0
      invariant nsec <= 1_000_000_000
      invariant nsec0 >= 0 ==> nsec >= 0
      invariant nsec0 < 0 ==> nsec < 1_000_000_000
      invariant nsec0 > 1_000_000_000 ==> 0 < nsec
      invariant 0 <= nsec0 <= 1_000_000_000 ==> nsec == nsec0
      decreases -nsec
    {
      nsec := nsec + 1_000_000_000;
      sec := sec - 1;
    }
    ts.tv := Timespec(sec, nsec);
  }

  /** There is exactly one such result. */
  lemma NormalizedUnique(sec: int, nsec: int, ts: Timespec)
    ensures Normalizes(ts, sec, nsec) <==> ts == Normalized(sec, nsec)
  {
  }

  function Normalized(sec: int, nsec: int): (ts: Timespec)
    ensures Normalizes(ts, sec, nsec)
  {
    var carry :=
      if nsec > 1_000_000_000 then (nsec - 1) / 1_000_000_000 else if nsec < 0 then nsec / 1_000_000_000 else 0;
    Timespec(sec + carry, nsec - carry * 1_000_000_000)
  }

  /** The nanoseconds are 10^9, which is not a legal tv_nsec, for exactly the positive whole
      numbers of seconds. */
  lemma NormalizedProperties(sec: int, nsec: int, ts: Timespec)
    requires Normalizes(ts, sec, nsec)
    ensures 0 <= ts.nsec <= 1_000_000_000
    ensures ts.nsec == 1_000_000_000 <==> nsec > 0 && nsec % 1_000_000_000 == 0
  {
  }

  method TimespecSub(lhs: Timespec, rhs: Timespec) returns (delta: Timespec)
    ensures Normalizes(delta, lhs.sec - rhs.sec, lhs.nsec - rhs.nsec)
    ensures delta.sec * 1_000_000_000 + delta.nsec
         == (lhs.sec - rhs.sec) * 1_000_000_000 + lhs.nsec - rhs.nsec
    ensures 0 <= delta.nsec <= 1_000_000_000
  {
    var v := new TimespecVar();
    TimespecNormalize(v, lhs.sec - rhs.sec, lhs.nsec - rhs.nsec);
    delta := v.tv;
  }

  method TimespecAdd(lhs: Timespec, rhs: Timespec) returns (delta: Timespec)
    ensures Normalizes(delta, lhs.sec + rhs.sec, lhs.nsec + rhs.nsec)
    ensures delta.sec * 1_000_000_000 + delta.nsec
         == (lhs.sec + rhs.sec) * 1_000_000_000 + lhs.nsec + rhs.nsec
    ensures 0 <= delta.nsec <= 1_000_000_000
  {
    var v := new TimespecVar();
    TimespecNormalize(v, lhs.sec + rhs.sec, lhs.nsec + rhs.nsec);
    delta := v.tv;
  }

  /** C division: the quotient is truncated towards zero. */
  function TruncatedQuotient(a: int, b: int): int
    requires b > 0
  {
    if a >= 0 then a / b else -(-a / b)
  }

  function TimespecToUs(ts: Timespec): int {
    ts.sec * 1000000 + TruncatedQuotient(ts.nsec, 1000)
  }

  /** The elapsed microseconds, as in do_data. */
  method ElapsedUs(start: Timespec, end: Timespec) returns (us: int)
    ensures 1000 * us <= (end.sec - start.sec) * 1_000_000_000 + end.nsec - start.nsec < 1000 * us + 1000
  {
    var delta := TimespecSub(end, start);
    ElapsedIsFloor(start, end, delta);
    us := TimespecToUs(delta);
  }

  /** Even with nsec = 10^9 the elapsed microseconds are exact: the floor of the nanoseconds
      between start and end divided by 1000. */
  lemma ElapsedIsFloor(start: Timespec, end: Timespec, delta: Timespec)
    requires Normalizes(delta, end.sec - start.sec, end.nsec - start.nsec)
    ensures var us := TimespecToUs(delta);
            1000 * us <= (end.sec - start.sec) * 1_000_000_000 + end.nsec - start.nsec < 1000 * us + 1000
  {
    NormalizedProperties(end.sec - start.sec, end.nsec - start.nsec, delta);
  }

  /** Converting alone truncates the part below a second towards zero. It is the floor exactly when
      nsec is not negative or is a whole number of microseconds, and one above it otherwise. */
  lemma ToUsIsFloorIff(ts: Timespec)
    ensures var us, ns := TimespecToUs(ts), ts.sec * 1_000_000_000 + ts.nsec;
            if ts.nsec >= 0 || ts.nsec % 1000 == 0 then 1000 * us <= ns < 1000 * us + 1000
            else 1000 * us - 1000 < ns < 1000 * us
  {
  }

  /** Subtracting undoes adding, in value always and in representation for canonical times. */
  lemma SubUndoesAdd(a: Timespec, b: Timespec, sum: Timespec, difference: Timespec)
    requires Normalizes(sum, a.sec + b.sec, a.nsec + b.nsec)
    requires Normalizes(difference, sum.sec - b.sec, sum.nsec - b.nsec)
    ensures difference.sec * 1_000_000_000 + difference.nsec == a.sec * 1_000_000_000 + a.nsec
    ensures Canonical(a) && Canonical(b) ==> difference == a
  {
  }
}
