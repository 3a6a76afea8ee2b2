/**
  CPU masks as text: comma-separated groups of hex digits, most significant group first. The
  first group has 1 to 8 digits, the others exactly 8.
 */
module MaskText {
  import opened Bits
  import opened CType

  const ULONG_MAX: nat := 0xFFFF_FFFF_FFFF_FFFF

  // ----- strtoul(s, NULL, 16), section 7.22.1.4 of ISO/IEC 9899:2011 -----

  predicate IsHexDigit(c: char) {
    '0' <= c <= '9' || 'a' <= c <= 'f' || 'A' <= c <= 'F'
  }

  function HexDigit(c: char): (d: nat)
    requires IsHexDigit(c)
    ensures d < 16
  {
    if c <= '9' then c as int - '0' as int
    else if c <= 'F' then c as int - 'A' as int + 10
    else c as int - 'a' as int + 10
  }

  predicate AllHex(s: seq<char>) {
    forall k :: 0 <= k < |s| ==> IsHexDigit(s[k])
  }

  function HexValue(s: seq<char>): nat
    requires AllHex(s)
  {
    if s == [] then 0 else 16 * HexValue(s[..|s| - 1]) + HexDigit(s[|s| - 1])
  }

  /** The digits in order, in either case. */
  lemma HexDigits(d: nat)
    requires d < 16
    ensures var lower, upper := "0123456789abcdef"[d], "0123456789ABCDEF"[d];
            && IsHexDigit(lower) && HexDigit(lower) == d && IsHexDigit(upper) && HexDigit(upper) == d
            && HexChar(d) == lower
  {
    assert d in {0, 1, 2, 3, 4, 5, 6, 7, 8, 9, 10, 11, 12, 13, 14, 15};
  }

  /** No other character is a digit. */
  lemma DigitsOnly(c: char)
    requires IsHexDigit(c)
    ensures c == "0123456789abcdef"[HexDigit(c)] || c == "0123456789ABCDEF"[HexDigit(c)]
  {
    var d := HexDigit(c);
    assert d in {0, 1, 2, 3, 4, 5, 6, 7, 8, 9, 10, 11, 12, 13, 14, 15};
  }

  /** The value of digits, read from the left. */
  lemma HexValueSnoc(g: seq<char>, d: nat, c: char)
    requires AllHex(g) && d < 16 && (c == "0123456789abcdef"[d] || c == "0123456789ABCDEF"[d])
    ensures HexValue([]) == 0 && AllHex(g + [c]) && HexValue(g + [c]) == 16 * HexValue(g) + d
  {
    HexDigits(d);
    assert (g + [c])[..|g|] == g;
  }

  /** Bit b of the value is bit b mod 4 of digit b div 4, counted from the right. */
  lemma {:induction false} HexValueBit(g: seq<char>, b: nat)
    requires AllHex(g)
    ensures Bit(HexValue(g), b) <==> b / 4 < |g| && Bit(HexDigit(g[|g| - 1 - b / 4]), b % 4)
    decreases |g|
  {
    if g == [] {
      if Bit(0, b) { BitIsSmall(0, b); }
    } else {
      var m := |g| - 1;
      BitOfNibble(HexValue(g[..m]), HexDigit(g[m]), b);
      if b >= 4 {
        HexValueBit(g[..m], b - 4);
        assert b / 4 == (b - 4) / 4 + 1 && b % 4 == (b - 4) % 4;
      }
    }
  }

  /** The length of the longest run of hex digits s starts with. */
  function HexRun(s: seq<char>): (n: nat)
    ensures n <= |s| && AllHex(s[..n])
    ensures n < |s| ==> !IsHexDigit(s[n])
  {
    if s == [] || !IsHexDigit(s[0]) then 0 else 1 + HexRun(s[1..])
  }

  /** The number the leading hex digits of s spell. */
  function Magnitude(s: seq<char>): nat {
    HexValue(s[..HexRun(s)])
  }

  function SkipSpaces(s: seq<char>): seq<char> {
    if s != [] && IsSpace(s[0]) then SkipSpaces(s[1..]) else s
  }

  function SkipHexMark(s: seq<char>): seq<char> {
    if |s| >= 3 && s[0] == '0' && (s[1] == 'x' || s[1] == 'X') && IsHexDigit(s[2]) then s[2..] else s
  }

  /** The magnitude is clipped to ULONG_MAX; a minus sign negates it as an unsigned long. */
  function StrToUl16(s: seq<char>): (v: nat)
    ensures v <= ULONG_MAX
  {
    var t := SkipSpaces(s);
    var signed := t != [] && (t[0] == '-' || t[0] == '+');
    var magnitude := Magnitude(SkipHexMark(if signed then t[1..] else t));
    if magnitude > ULONG_MAX then ULONG_MAX
    else if signed && t[0] == '-' && magnitude > 0 then ULONG_MAX + 1 - magnitude
    else magnitude
  }

  lemma {:induction false} HexRunIs(s: seq<char>, n: nat)
    requires n <= |s| && (forall k :: 0 <= k < n ==> IsHexDigit(s[k])) && (n < |s| ==> !IsHexDigit(s[n]))
    ensures HexRun(s) == n
    decreases n
  {
    if n > 0 { HexRunIs(s[1..], n - 1); }
  }

  lemma MagnitudeOfGroup(g: seq<char>, tail: seq<char>)
    requires AllHex(g) && (tail == [] || !IsHexDigit(tail[0]))
    ensures Magnitude(g + tail) == HexValue(g)
  {
    HexRunIs(g + tail, |g|);
    assert (g + tail)[..|g|] == g;
  }

  /** The value of n hex digits takes 4 n bits. */
  lemma {:induction false} HexValueBound(s: seq<char>)
    requires AllHex(s)
    ensures HexValue(s) < Pow2(4 * |s|)
  {
    if s != [] {
      var m := |s| - 1;
      HexValueBound(s[..m]);
      Pow2Plus4(4 * m);
    }
  }

  lemma Pow2Plus4(n: nat)
    ensures Pow2(n + 4) == 16 * Pow2(n)
  {
    assert Pow2(n + 4) == 2 * Pow2(n + 3) == 4 * Pow2(n + 2) == 8 * Pow2(n + 1);
  }

  /** Text that starts with a digit and has no x in second place is digits at once. */
  lemma DigitsAtOnce(s: seq<char>)
    requires s != [] && IsHexDigit(s[0]) && (|s| >= 2 ==> IsHexDigit(s[1]) || s[1] == ',')
    requires Magnitude(s) <= ULONG_MAX
    ensures StrToUl16(s) == Magnitude(s)
  {
    NothingToSkip(s);
  }

  lemma NothingToSkip(s: seq<char>)
    requires s != [] && IsHexDigit(s[0]) && (|s| >= 2 ==> IsHexDigit(s[1]) || s[1] == ',')
    ensures SkipSpaces(s) == s && SkipHexMark(s) == s
  {
    assert !IsSpace(s[0]);
  }

  /** On a group the parse stops at the comma or the terminator and is exact. */
  lemma GroupParse(g: seq<char>, tail: seq<char>)
    requires AllHex(g) && 1 <= |g| <= 8 && (tail == [] || tail[0] == ',')
    ensures StrToUl16(g + tail) == HexValue(g)
  {
    MagnitudeOfGroup(g, tail);
    GroupValueBound(g);
    DigitsAtOnce(g + tail);
  }

  lemma GroupValueBound(g: seq<char>)
    requires AllHex(g) && |g| <= 8
    ensures HexValue(g) < 0x1_0000_0000
  {
    HexValueBound(g);
    Pow2Mono(4 * |g|, 32);
    WordSizes();
  }

  lemma {:induction false} Pow2Mono(m: nat, n: nat)
    requires m <= n
    ensures Pow2(m) <= Pow2(n)
  {
    if m < n { Pow2Mono(m, n - 1); }
  }

  lemma WordSizes()
    ensures Pow2(32) == 0x1_0000_0000
    ensures Pow2(64) == ULONG_MAX + 1
  {
    HalfWordSize();
    Pow2Plus8(32);
    Pow2Plus8(40);
    Pow2Plus8(48);
    Pow2Plus8(56);
  }

  lemma HalfWordSize()
    ensures Pow2(32) == 0x1_0000_0000
  {
    Pow2Plus8(0);
    Pow2Plus8(8);
    Pow2Plus8(16);
    Pow2Plus8(24);
  }

  // ----- masks as lists of groups -----

  /** gs[0] is the most significant group. */
  ghost predicate IsMask(gs: seq<seq<char>>) {
    && |gs| >= 1 && 1 <= |gs[0]| <= 8
    && (forall k :: 0 <= k < |gs| ==> AllHex(gs[k]))
    && (forall k :: 1 <= k < |gs| ==> |gs[k]| == 8)
  }

  function Join(gs: seq<seq<char>>): seq<char>
    requires gs != []
  {
    if |gs| == 1 then gs[0] else Join(gs[..|gs| - 1]) + [','] + gs[|gs| - 1]
  }

  /** The numbers the groups spell. */
  ghost function Numbers(gs: seq<seq<char>>): (vs: seq<nat>)
    requires IsMask(gs)
    ensures |vs| == |gs| && forall k :: 0 <= k < |gs| ==> vs[k] == HexValue(gs[k])
  {
    seq(|gs|, k requires 0 <= k < |gs| => HexValue(gs[k]))
  }

  /** CPU x is bit x mod 32 of number x div 32, counted from the right. */
  ghost predicate Denotes(vs: seq<nat>, x: nat) {
    x / 32 < |vs| && Bit(vs[|vs| - 1 - x / 32], x % 32)
  }

  ghost function MaskCpus(gs: seq<seq<char>>): set<nat>
    requires IsMask(gs)
  {
    set x | 0 <= x < 32 * |gs| && Denotes(Numbers(gs), x)
  }

  /** A mask has a digit for each of its CPUs. */
  lemma DenotesBound(gs: seq<seq<char>>, x: nat)
    requires IsMask(gs) && Denotes(Numbers(gs), x)
    ensures x < 32 * (|gs| - 1) + 4 * |gs[0]|
  {
    var k := |gs| - 1 - x / 32;
    assert Numbers(gs)[k] == HexValue(gs[k]);
    BitInDigits(gs[k], x % 32);
  }

  lemma BitInDigits(g: seq<char>, b: nat)
    requires AllHex(g) && Bit(HexValue(g), b)
    ensures b < 4 * |g|
  {
    HexValueBound(g);
    SmallHasNoBit(HexValue(g), 4 * |g|, b);
  }

  // ----- printing -----

  function HexChar(d: nat): (c: char)
    requires d < 16
    ensures IsHexDigit(c) && HexDigit(c) == d
  {
    if d < 10 then '0' + d as char else 'a' + (d - 10) as char
  }

  /** The four CPUs from base on, as one digit. */
  function Nibble(cpus: set<nat>, base: nat): (d: nat)
    ensures d < 16
  {
    (if base in cpus then 1 else 0) + (if base + 1 in cpus then 2 else 0)
    + (if base + 2 in cpus then 4 else 0) + (if base + 3 in cpus then 8 else 0)
  }

  /** The CPUs from base on in `width` digits, lowest CPU last. */
  function GroupText(cpus: set<nat>, base: nat, width: nat): (g: seq<char>)
    ensures |g| == width && AllHex(g)
    decreases width, base
  {
    if width == 0 then [] else GroupText(cpus, base + 4, width - 1) + [HexChar(Nibble(cpus, base))]
  }

  /** `count` groups, the first one in `width` digits. */
  function MaskGroups(cpus: set<nat>, count: nat, width: nat): (gs: seq<seq<char>>)
    requires count >= 1 && 1 <= width <= 8
    ensures IsMask(gs) && |gs| == count && |gs[0]| == width
  {
    seq(count, k requires 0 <= k < count => GroupText(cpus, 32 * (count - 1 - k), if k == 0 then width else 8))
  }

  function PrintMask(cpus: set<nat>, count: nat, width: nat): seq<char>
    requires count >= 1 && 1 <= width <= 8
  {
    Join(MaskGroups(cpus, count, width))
  }

  /** All CPUs have a digit in a mask of this shape. */
  ghost predicate Fits(cpus: set<nat>, count: nat, width: nat)
    requires count >= 1
  {
    forall x :: x in cpus ==> x < 32 * (count - 1) + 4 * width
  }

  lemma NibbleBits(cpus: set<nat>, base: nat, k: nat)
    requires k < 4
    ensures Bit(Nibble(cpus, base), k) <==> base + k in cpus
  {
    var d := Nibble(cpus, base);
    if k == 3 {
      assert Bit(d, 3) == Bit(d / 2, 2) == Bit(d / 2 / 2, 1) == Bit(d / 2 / 2 / 2, 0);
    } else if k == 2 {
      assert Bit(d, 2) == Bit(d / 2, 1) == Bit(d / 2 / 2, 0);
    }
  }

  lemma {:induction false} GroupTextBits(cpus: set<nat>, base: nat, width: nat, k: nat)
    ensures Bit(HexValue(GroupText(cpus, base, width)), k) <==> k < 4 * width && base + k in cpus
    decreases width
  {
    var g := GroupText(cpus, base, width);
    if width == 0 {
      if Bit(0, k) { BitIsSmall(0, k); }
    } else {
      var rest := GroupText(cpus, base + 4, width - 1);
      assert g[..width - 1] == rest;
      BitOfNibble(HexValue(rest), Nibble(cpus, base), k);
      if k < 4 {
        NibbleBits(cpus, base, k);
      } else {
        GroupTextBits(cpus, base + 4, width - 1, k - 4);
      }
    }
  }

  /** Whether CPU 32 q + b is in the set, read off the mask. */
  lemma PrintedBit(cpus: set<nat>, count: nat, width: nat, q: nat, b: nat)
    requires count >= 1 && 1 <= width <= 8 && b < 32 && Fits(cpus, count, width)
    ensures q < count && Bit(Numbers(MaskGroups(cpus, count, width))[count - 1 - q], b) <==> 32 * q + b in cpus
  {
    if q < count {
      var k := count - 1 - q;
      var w := if k == 0 then width else 8;
      assert MaskGroups(cpus, count, width)[k] == GroupText(cpus, 32 * q, w);
      GroupTextBits(cpus, 32 * q, w, b);
    }
  }

  lemma PrintedDenotes(cpus: set<nat>, count: nat, width: nat, x: nat)
    requires count >= 1 && 1 <= width <= 8 && Fits(cpus, count, width)
    ensures Denotes(Numbers(MaskGroups(cpus, count, width)), x) <==> x in cpus
  {
    assert x == 32 * (x / 32) + x % 32;
    PrintedBit(cpus, count, width, x / 32, x % 32);
  }

  /** Reading the printed groups back gives the printed CPUs. */
  lemma MaskGroupsDenote(cpus: set<nat>, count: nat, width: nat)
    requires count >= 1 && 1 <= width <= 8 && Fits(cpus, count, width)
    ensures MaskCpus(MaskGroups(cpus, count, width)) == cpus
  {
    forall x: nat ensures x in MaskCpus(MaskGroups(cpus, count, width)) <==> x in cpus {
      PrintedDenotes(cpus, count, width, x);
    }
  }
}
