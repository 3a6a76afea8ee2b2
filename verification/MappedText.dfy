/**
  What read_mapping makes of a file, said of the characters of the file alone.
 */
module MappedText {
  import opened Bits
  import opened MaskText
  import opened Migration

  // ----- any content -----

  /** The text is the content up to its first NUL, cut after 1152 characters. */
  lemma TextOfContent(content: seq<char>)
    ensures var text := TextOf(content);
      && text <= content && |text| <= 1152 && '\0' !in text
      && (|text| < |content| && |text| < 1152 ==> content[|text|] == '\0')
  {
  }

  /** Where the i-th number, counted from the right, is read: 8 characters from the end and then
      always 9 further to the left, but not before the start. */
  function ChunkStart(len: nat, i: nat): (start: nat)
    ensures start <= len
  {
    if 9 * i + 8 <= len then len - 8 - 9 * i else 0
  }

  ghost predicate ReadsFrom(values: seq<nat>, parse: seq<char> -> nat, text: seq<char>, len: nat)
    requires len <= |text|
  {
    && |values| == 1 + len / 9
    && forall i :: 0 <= i < |values| ==> values[i] == parse(text[ChunkStart(len, i)..])
  }

  /** The loop reads one number per full or partial group of 9 characters. */
  lemma {:induction false} ChunksRead(parse: seq<char> -> nat, text: seq<char>, len: nat)
    requires len <= |text|
    ensures ReadsFrom(ChunkValues(parse, text, len - 8), parse, text, len)
    decreases len
  {
    var values := ChunkValues(parse, text, len - 8);
    if len >= 9 {
      ChunksRead(parse, text, len - 9);
      var rest := ChunkValues(parse, text, len - 17);
      assert values == [parse(text[len - 8..])] + rest;
      forall i | 1 <= i < |values| ensures values[i] == parse(text[ChunkStart(len, i)..]) {
        assert values[i] == rest[i - 1] && ChunkStart(len, i) == ChunkStart(len - 9, i - 1);
      }
    } else {
      assert values == [parse(text[ChunkStart(len, 0)..])];
    }
  }

  /** Number i of the text has a bit for CPU x. */
  ghost predicate NumberHas(text: seq<char>, i: nat, x: nat) {
    i <= |text| / 9 && 32 * i <= x && Bit(StrToUl16(text[ChunkStart(|text|, i)..]), x - 32 * i)
  }

  /** Main result for arbitrary content: the CPUs are the bits of these numbers, 32 further for each
      number to the left, as far as they fit the set that is allocated. */
  lemma MappedCpusIff(content: seq<char>, x: nat)
    ensures var text := TextOf(content);
      x in MappedCpus(content)
      <==> x < 8 * AllocSize(NBits(|text|)) && exists i: nat :: NumberHas(text, i, x)
  {
    var text := TextOf(content);
    KeptOfText(content, x);
    NumbersOfText(text, x);
  }

  lemma KeptOfText(content: seq<char>, x: nat)
    ensures var text := TextOf(content);
      x in MappedCpus(content)
      <==> x < 8 * AllocSize(NBits(|text|)) && x in CpusOf(ChunkValues(StrToUl16, text, |text| - 8), 0)
  {
  }

  lemma NumbersOfText(text: seq<char>, x: nat)
    ensures x in CpusOf(ChunkValues(StrToUl16, text, |text| - 8), 0) <==> exists i: nat :: NumberHas(text, i, x)
  {
    var values := ChunkValues(StrToUl16, text, |text| - 8);
    ChunksRead(StrToUl16, text, |text|);
    CpusOfMember(values, 0, x);
    forall i: nat ensures ValueHolds(values, 0, i, x) <==> NumberHas(text, i, x) {
    }
  }

  // ----- masks -----

  /** A mask as a text: digits, and a comma after every eighth from the right. */
  ghost predicate IsMaskText(text: seq<char>) {
    |text| % 9 != 0 && forall p :: 0 <= p < |text| ==> IsMaskChar(text, p)
  }

  /** Position p from the right holds what a mask has there. */
  ghost predicate IsMaskChar(text: seq<char>, p: nat)
    requires p < |text|
  {
    var c := text[|text| - 1 - p];
    if p % 9 == 8 then c == ',' else IsHexDigit(c)
  }

  lemma {:induction false} SplitMask(text: seq<char>) returns (gs: seq<seq<char>>)
    requires IsMaskText(text)
    ensures IsMask(gs) && Join(gs) == text
    decreases |text|
  {
    if |text| <= 8 {
      gs := [text];
      LastDigits(text, |text|);
      assert text[0..] == text;
    } else {
      var m := |text| - 9;
      FrontIsMask(text);
      gs := SplitMask(text[..m]);
      LastDigits(text, 8);
      assert IsMaskChar(text, 8);
      gs := AddGroup(text[..m], gs, text[m + 1..]);
      assert text == text[..m] + ([','] + text[m + 1..]);
    }
  }

  lemma AddGroup(front: seq<char>, gs: seq<seq<char>>, g: seq<char>) returns (all: seq<seq<char>>)
    requires IsMask(gs) && Join(gs) == front && AllHex(g) && |g| == 8
    ensures IsMask(all) && Join(all) == front + ([','] + g)
  {
    all := gs + [g];
    MaskSplit(all);
    assert all[..|all| - 1] == gs;
  }

  lemma FrontIsMask(text: seq<char>)
    requires IsMaskText(text) && |text| > 8
    ensures IsMaskText(text[..|text| - 9])
  {
    var front := text[..|text| - 9];
    forall p: nat | p < |front| ensures IsMaskChar(front, p) {
      assert IsMaskChar(text, p + 9);
      assert (p + 9) % 9 == p % 9;
    }
  }

  lemma LastDigits(text: seq<char>, n: nat)
    requires IsMaskText(text) && n <= |text| && n <= 8
    ensures AllHex(text[|text| - n..])
  {
    var g := text[|text| - n..];
    forall k | 0 <= k < n ensures IsHexDigit(g[k]) {
      assert IsMaskChar(text, n - 1 - k);
    }
  }

  /** Digit r from the right of group q from the right is character 9 q + r from the right. */
  lemma {:induction false} CharOfJoin(gs: seq<seq<char>>, q: nat, r: nat)
    requires IsMask(gs) && q < |gs| && r < |gs[|gs| - 1 - q]|
    ensures 9 * q + r < |Join(gs)|
    ensures Join(gs)[|Join(gs)| - 1 - (9 * q + r)] == var g := gs[|gs| - 1 - q]; g[|g| - 1 - r]
    decreases q
  {
    JoinLength(gs);
    if |gs| > 1 {
      MaskSplit(gs);
      JoinLength(gs[..|gs| - 1]);
      if q > 0 { CharOfJoin(gs[..|gs| - 1], q - 1, r); }
    }
  }

  /** The p-th character from the right is a digit with bit k. */
  ghost predicate DigitAt(text: seq<char>, p: nat, k: nat) {
    p < |text| && IsHexDigit(text[|text| - 1 - p]) && Bit(HexDigit(text[|text| - 1 - p]), k)
  }

  lemma DenotedDigit(gs: seq<seq<char>>, q: nat, b: nat)
    requires IsMask(gs) && b < 32
    ensures q < |gs| && Bit(Numbers(gs)[|gs| - 1 - q], b) <==> DigitAt(Join(gs), 9 * q + b / 4, b % 4)
  {
    JoinLength(gs);
    if q < |gs| {
      var g := gs[|gs| - 1 - q];
      HexValueBit(g, b);
      if b / 4 < |g| {
        CharOfJoin(gs, q, b / 4);
      }
    }
  }

  lemma DenotedAt(gs: seq<seq<char>>, x: nat)
    requires IsMask(gs)
    ensures Denotes(Numbers(gs), x) <==> DigitAt(Join(gs), x / 4 + x / 32, x % 4)
  {
    DenotedDigit(gs, x / 32, x % 32);
    DenotesIff(Numbers(gs), Join(gs), x);
  }

  lemma DenotesIff(vs: seq<nat>, text: seq<char>, x: nat)
    requires x / 32 < |vs| && Bit(vs[|vs| - 1 - x / 32], x % 32)
             <==> DigitAt(text, 9 * (x / 32) + x % 32 / 4, x % 32 % 4)
    ensures Denotes(vs, x) <==> DigitAt(text, x / 4 + x / 32, x % 4)
  {
    Positions(x, x / 32, x % 32, x % 32 / 4);
  }

  /** Digit r of the 8 of group q is preceded by 9 q + r characters. */
  lemma Positions(x: nat, q: nat, b: nat, r: nat)
    requires q == x / 32 && b == x % 32 && r == b / 4
    ensures 9 * q + r == x / 4 + x / 32 && b % 4 == x % 4
  {
    assert x / 4 == 8 * q + r;
  }

  lemma MappedAt(text: seq<char>, x: nat)
    requires IsMaskText(text) && |text| <= 1151
    ensures x in MappedCpus(text) <==> DigitAt(text, x / 4 + x / 32, x % 4)
  {
    var gs := SplitMask(text);
    JoinLength(gs);
    MappedCpusOfMask(gs);
    DenotedAt(gs, x);
  }

  /** c is the digit d, in either case. */
  ghost predicate IsDigitOf(c: char, d: nat)
    requires d < 16
  {
    c == "0123456789abcdef"[d] || c == "0123456789ABCDEF"[d]
  }

  /** c is a digit with bit k. */
  ghost predicate HasBit(c: char, k: nat)
    requires k < 4
  {
    exists d: nat :: d < 16 && IsDigitOf(c, d) && d / Pow2(k) % 2 == 1
  }

  lemma HasBitIff(c: char, k: nat)
    requires k < 4
    ensures HasBit(c, k) <==> IsHexDigit(c) && Bit(HexDigit(c), k)
  {
    if IsHexDigit(c) {
      DigitsOnly(c);
      BitIsQuotient(HexDigit(c), k);
      assert IsDigitOf(c, HexDigit(c));
    }
    if HasBit(c, k) {
      var d: nat :| d < 16 && IsDigitOf(c, d) && d / Pow2(k) % 2 == 1;
      HexDigits(d);
      BitIsQuotient(d, k);
    }
  }

  ghost predicate HasBitAt(text: seq<char>, p: nat, k: nat)
    requires k < 4
  {
    p < |text| && HasBit(text[|text| - 1 - p], k)
  }

  /** Main result for masks, up to those of 4096 CPUs: the digit for CPU x is number x div 4 from the
      right, with x div 32 commas to the right of it, and CPU x is mapped if it has bit x mod 4. */
  lemma MappedDigit(text: seq<char>, x: nat)
    requires IsMaskText(text) && |text| <= 1151
    ensures x in MappedCpus(text) <==> HasBitAt(text, x / 4 + x / 32, x % 4)
  {
    MappedAt(text, x);
    ReadOffDigit(MappedCpus(text), text, x, x / 4 + x / 32, x % 4);
  }

  lemma ReadOffDigit(cpus: set<nat>, text: seq<char>, x: nat, p: nat, k: nat)
    requires k < 4 && (x in cpus <==> DigitAt(text, p, k))
    ensures x in cpus <==> HasBitAt(text, p, k)
  {
    if p < |text| { HasBitIff(text[|text| - 1 - p], k); }
  }
}
