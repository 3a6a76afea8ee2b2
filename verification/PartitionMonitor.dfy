/**
  check_cp_setting of bin/ca_spin.c: every loop of a job looks at the cache partitions
  the thread owns, and marks event 1 while their number is wrong and event 2 when it is
  right again.
 */
module PartitionMonitor {
  import opened Bits

  /** The partitions of a uint16_t mask. */
  const MASK_BITS: nat := 16

  method CountBits(mask: nat) returns (count: nat)
    requires mask <= 0xFFFF
    ensures count == |BitSet(mask)|
  {
    var i := 0;
    count := 0;
    ghost var seen: set<nat> := {};
    while i < MASK_BITS
      invariant i <= MASK_BITS && count == |seen|
      invariant forall k: nat :: k in seen <==> k < i && Bit(mask, k)
    {
      if Bit(mask, i) {
        seen := seen + {i};
        count := count + 1;
      }
      i := i + 1;
    }
    forall k: nat ensures k in seen <==> k in BitSet(mask) {
      MaskBit(mask, k);
    }
    assert seen == BitSet(mask);
  }

  lemma MaskBit(mask: nat, k: nat)
    requires mask <= 0xFFFF
    ensures k in BitSet(mask) <==> k < MASK_BITS && Bit(mask, k)
  {
    ShiftedBitsMember(mask, 0, k);
    Pow2Plus8(0);
    Pow2Plus8(8);
    if Bit(mask, k) { SmallHasNoBit(mask, MASK_BITS, k); }
  }

  /** An observation is invalid if the number of partitions is not the configured one. */
  ghost predicate Invalid(mask: nat, numCp: int) {
    |BitSet(mask)| != numCp
  }

  ghost function Judged(masks: seq<nat>, numCp: int): (bad: seq<bool>)
    ensures |bad| == |masks| && forall i :: 0 <= i < |masks| ==> bad[i] == Invalid(masks[i], numCp)
  {
    seq(|masks|, i requires 0 <= i < |masks| => Invalid(masks[i], numCp))
  }

  /** The marks the observations call for, judging each by itself and the one before: a 1 for a
      bad one, a 2 for a good one right after a bad one. */
  ghost function Marks(bad: seq<bool>): seq<int> {
    if bad == [] then [] else Marks(bad[..|bad| - 1]) + LastMark(bad)
  }

  ghost function LastMark(bad: seq<bool>): seq<int>
    requires bad != []
  {
    if bad[|bad| - 1] then [1] else if EndsBad(bad[..|bad| - 1]) then [2] else []
  }

  ghost predicate EndsBad(bad: seq<bool>) {
    bad != [] && bad[|bad| - 1]
  }

  lemma MarksSnoc(bad: seq<bool>, b: bool)
    ensures Marks(bad + [b]) == Marks(bad) + if b then [1] else if EndsBad(bad) then [2] else []
  {
    assert (bad + [b])[..|bad|] == bad;
  }

  lemma Append(a: seq<int>, b: seq<int>, c: seq<int>)
    ensures (a + b) + c == a + (b + c)
  {
  }

  lemma MarksGrow(base: seq<int>, seen: seq<bool>, b: bool)
    ensures base + Marks(seen + [b]) == base + Marks(seen) + if b then [1] else if EndsBad(seen) then [2] else []
  {
    MarksSnoc(seen, b);
    Append(base, Marks(seen), if b then [1] else if EndsBad(seen) then [2] else []);
  }

  class Monitor {
    const numCp: int
    var invalidCpFlag: int
    var cpPrev: int
    var marks: seq<int>       // the events handed to mark_event
    ghost var base: seq<int>  // those of earlier jobs
    ghost var seen: seq<bool> // the observations of the current job, true for a bad one

    constructor (numCp: int)
      ensures Valid() && this.numCp == numCp && seen == [] && marks == []
    {
      this.numCp := numCp;
      invalidCpFlag, cpPrev, marks, base, seen := 0, 0xFFFF, [], [], [];
    }

    /** The flag is up exactly when the last observation of the job was bad. */
    ghost predicate Valid()
      reads this
    {
      && invalidCpFlag == (if EndsBad(seen) then 1 else 0)
      && marks == base + Marks(seen)
    }

    method CheckCpSetting(mask: nat)
      requires Valid() && mask <= 0xFFFF
      modifies this
      ensures Valid() && seen == old(seen) + [Invalid(mask, numCp)] && base == old(base) && cpPrev == mask
    {
      if mask != cpPrev {
        cpPrev := mask;
      }
      var count := CountBits(mask);
      ghost var due := if count != numCp then [1] else if EndsBad(seen) then [2] else [];
      MarksGrow(base, seen, count != numCp);
      if count != numCp {
        marks := marks + [1];
        invalidCpFlag := 1;
        cpPrev := mask;
      }
      if invalidCpFlag == 1 && count == numCp {
        marks := marks + [2];
        invalidCpFlag := 0;
      }
      assert marks == old(marks) + due;
      seen := seen + [count != numCp];
    }

    /** One job: the flag is reset, then each loop makes one observation. */
    method Job(masks: seq<nat>)
      requires forall i :: 0 <= i < |masks| ==> masks[i] <= 0xFFFF
      modifies this
      ensures Valid() && marks == old(marks) + Marks(Judged(masks, numCp))
      ensures invalidCpFlag == 1 <==> masks != [] && Invalid(masks[|masks| - 1], numCp)
    {
      ghost var bad := Judged(masks, numCp);
      invalidCpFlag := 0;
      seen, base := [], marks;
      var iter := 0;
      while iter < |masks|
        invariant iter <= |masks| && seen == bad[..iter]
        invariant Valid() && base == old(marks)
      {
        CheckCpSetting(masks[iter]);
        iter := iter + 1;
      }
      assert seen == bad;
    }
  }

  // ----- the trace of marks -----

  /** Mark t is a 1, or a 2 right after a 1. */
  ghost predicate WellPlaced(marks: seq<int>, t: nat) {
    t < |marks| && (marks[t] == 1 || (marks[t] == 2 && t > 0 && marks[t - 1] == 1))
  }

  /** The trace has the form (1 ... 1 2)* 1 ... 1: nothing but 1s and 2s, and a 2 only right after
      a 1. It ends with a 1 exactly while the partitions are wrong. */
  lemma {:induction false} MarksShape(bad: seq<bool>)
    ensures forall t :: 0 <= t < |Marks(bad)| ==> WellPlaced(Marks(bad), t)
    ensures EndsBad(bad) <==> Marks(bad) != [] && Marks(bad)[|Marks(bad)| - 1] == 1
    decreases |bad|
  {
    if bad != [] {
      var rest := bad[..|bad| - 1];
      MarksShape(rest);
      var before, after := Marks(rest), Marks(bad);
      forall t | 0 <= t < |after| ensures WellPlaced(after, t) {
        if t < |before| { assert WellPlaced(before, t); }
      }
    }
  }

  ghost function BadAt(bad: seq<bool>): set<nat> {
    set i | 0 <= i < |bad| && bad[i]
  }

  /** Where a maximal run of bad observations has just ended. */
  ghost function RunEnds(bad: seq<bool>): set<nat> {
    set i | 0 <= i < |bad| && EndsBad(bad[..i]) && !bad[i]
  }

  lemma BadAtSnoc(bad: seq<bool>, b: bool)
    ensures |BadAt(bad + [b])| == |BadAt(bad)| + if b then 1 else 0
  {
    assert BadAt(bad + [b]) == BadAt(bad) + if b then {|bad|} else {};
  }

  lemma RunEndsSnoc(bad: seq<bool>, b: bool)
    ensures |RunEnds(bad + [b])| == |RunEnds(bad)| + if EndsBad(bad) && !b then 1 else 0
  {
    assert forall i :: 0 <= i <= |bad| ==> (bad + [b])[..i] == bad[..i];
    assert bad[..|bad|] == bad;
    assert RunEnds(bad + [b]) == RunEnds(bad) + if EndsBad(bad) && !b then {|bad|} else {};
  }

  /** One 1 per bad observation, one 2 per ended run of them. */
  lemma {:induction false} MarkCounts(bad: seq<bool>)
    ensures multiset(Marks(bad))[1] == |BadAt(bad)|
    ensures multiset(Marks(bad))[2] == |RunEnds(bad)|
    decreases |bad|
  {
    if bad != [] {
      var rest, b := bad[..|bad| - 1], bad[|bad| - 1];
      assert bad == rest + [b];
      MarkCounts(rest);
      MarksSnoc(rest, b);
      BadAtSnoc(rest, b);
      RunEndsSnoc(rest, b);
    }
  }
}
