/**
  Unsigned machine words as natural numbers with numbered bits.
 */
module Bits {
  import opened Quotients

  /** v & (1 << k), as a truth value */
  predicate Bit(v: nat, k: nat)
    decreases k
  {
    if k == 0 then v % 2 == 1 else Bit(v / 2, k - 1)
  }

  /** ffsl(v) - 1: the number of the lowest set bit. */
  function LowestBit(v: nat): nat
    requires v > 0
  {
    if v % 2 == 1 then 0 else 1 + LowestBit(v / 2)
  }

  /** v & ~(1 << k) */
  function ClearBit(v: nat, k: nat): nat
    decreases k
  {
    if k == 0 then v - v % 2 else 2 * ClearBit(v / 2, k - 1) + v % 2
  }

  /** v | (1 << k) */
  function SetBit(v: nat, k: nat): nat
    decreases k
  {
    if k == 0 then v - v % 2 + 1 else 2 * SetBit(v / 2, k - 1) + v % 2
  }

  function Pow2(n: nat): (p: nat)
    ensures p > n
  {
    if n == 0 then 1 else 2 * Pow2(n - 1)
  }

  /** Bit k is the parity of the quotient by 2^k. */
  lemma {:induction false} BitIsQuotient(v: nat, k: nat)
    ensures Bit(v, k) <==> v / Pow2(k) % 2 == 1
    decreases k
  {
    if k > 0 {
      BitIsQuotient(v / 2, k - 1);
      HalfQuotient(v, Pow2(k - 1));
    }
  }

  lemma HalfQuotient(v: nat, p: nat)
    requires p > 0
    ensures v / 2 / p == v / (2 * p)
  {
    QuotientBounds(v / 2, p);
    QuotientIs(v, 2 * p, v / 2 / p);
  }

  /** The numbers base + k of the set bits k of v. */
  ghost function ShiftedBits(v: nat, base: nat): set<nat> {
    set x: nat | 0 <= x < base + v && HasShiftedBit(v, base, x)
  }

  ghost predicate HasShiftedBit(v: nat, base: nat, x: nat) {
    base <= x && Bit(v, x - base)
  }

  ghost function BitSet(v: nat): set<nat> {
    ShiftedBits(v, 0)
  }

  lemma {:induction false} BitIsSmall(v: nat, k: nat)
    requires Bit(v, k)
    ensures Pow2(k) <= v && k < v
    decreases k
  {
    if k > 0 { BitIsSmall(v / 2, k - 1); }
  }

  lemma {:induction false} SmallHasNoBit(v: nat, n: nat, k: nat)
    requires v < Pow2(n) && Bit(v, k)
    ensures k < n
    decreases k
  {
    if n == 0 {
      BitIsSmall(v, k);
    } else if k > 0 {
      SmallHasNoBit(v / 2, n - 1, k - 1);
    }
  }

  lemma {:induction false} BitsDetermine(v: nat, w: nat)
    requires forall k: nat :: Bit(v, k) <==> Bit(w, k)
    ensures v == w
    decreases v + w
  {
    if v + w > 0 {
      assert Bit(v, 0) <==> Bit(w, 0);
      forall k: nat ensures Bit(v / 2, k) <==> Bit(w / 2, k) {
        assert Bit(v, k + 1) <==> Bit(w, k + 1);
      }
      BitsDetermine(v / 2, w / 2);
    }
  }

  lemma ShiftedBitsMember(v: nat, base: nat, x: nat)
    ensures x in ShiftedBits(v, base) <==> base <= x && Bit(v, x - base)
  {
    if base <= x && Bit(v, x - base) { BitIsSmall(v, x - base); }
  }

  lemma {:induction false} LowestBitIsLowest(v: nat)
    requires v > 0
    ensures Bit(v, LowestBit(v))
    ensures forall k: nat :: Bit(v, k) ==> LowestBit(v) <= k
  {
    if v % 2 == 0 {
      LowestBitIsLowest(v / 2);
      forall k: nat | Bit(v, k) ensures LowestBit(v) <= k {
        assert k > 0 && Bit(v / 2, k - 1);
      }
    }
  }

  lemma {:induction false} BitOfClearBit(v: nat, k: nat, i: nat)
    ensures Bit(ClearBit(v, k), i) <==> Bit(v, i) && i != k
    decreases k
  {
    if k > 0 {
      assert ClearBit(v, k) / 2 == ClearBit(v / 2, k - 1);
      if i > 0 { BitOfClearBit(v / 2, k - 1, i - 1); }
    } else if i > 0 {
      assert ClearBit(v, 0) / 2 == v / 2;
    }
  }

  lemma {:induction false} BitOfSetBit(v: nat, k: nat, i: nat)
    ensures Bit(SetBit(v, k), i) <==> Bit(v, i) || i == k
    decreases k
  {
    if k > 0 {
      assert SetBit(v, k) / 2 == SetBit(v / 2, k - 1);
      if i > 0 { BitOfSetBit(v / 2, k - 1, i - 1); }
    } else if i > 0 {
      assert SetBit(v, 0) / 2 == v / 2;
    }
  }

  lemma {:induction false} ClearBitDecreases(v: nat, k: nat)
    requires Bit(v, k)
    ensures ClearBit(v, k) < v
    decreases k
  {
    if k > 0 { ClearBitDecreases(v / 2, k - 1); }
  }

  /** Four more low bits. */
  lemma BitOfNibble(v: nat, d: nat, k: nat)
    requires d < 16
    ensures Bit(16 * v + d, k) <==> if k < 4 then Bit(d, k) else Bit(v, k - 4)
  {
    var w := 16 * v + d;
    assert w / 2 == 8 * v + d / 2 && w / 2 / 2 == 4 * v + d / 4;
    assert w / 2 / 2 / 2 == 2 * v + d / 8 && w / 2 / 2 / 2 / 2 == v;
    if k >= 4 {
      assert Bit(w, k) == Bit(w / 2, k - 1) == Bit(w / 2 / 2, k - 2) == Bit(w / 2 / 2 / 2, k - 3);
    } else {
      assert d / 2 / 2 == d / 4 && d / 2 / 2 / 2 == d / 8;
      if k == 3 {
        assert Bit(w, 3) == Bit(w / 2, 2) == Bit(w / 2 / 2, 1) == Bit(w / 2 / 2 / 2, 0);
        assert Bit(d, 3) == Bit(d / 2, 2) == Bit(d / 2 / 2, 1) == Bit(d / 2 / 2 / 2, 0);
      }
    }
  }

  lemma Pow2Plus8(n: nat)
    ensures Pow2(n + 8) == 256 * Pow2(n)
  {
    assert Pow2(n + 8) == 2 * Pow2(n + 7) == 4 * Pow2(n + 6) == 8 * Pow2(n + 5) == 16 * Pow2(n + 4);
    assert Pow2(n + 4) == 2 * Pow2(n + 3) == 4 * Pow2(n + 2) == 8 * Pow2(n + 1) == 16 * Pow2(n);
  }
}
