/**
  src/migration.c: read_mapping turns the text of a /proc/litmus mapping file into a CPU set,
  right to left, and its callers turn the set into a 64-bit mask or a first CPU.
 */
module Migration {
  import opened Bits
  import opened MaskText
  import opened KernelFile

  const BUF_SIZE: nat := 4096 / 4 + 4096 / (4 * 8) + 1

  /** A cpu_foundt. As with the CPU_*_S macros of sched.h its size in bytes, `sz`, is passed
      along with it, and CPUs beyond that size are neither set nor found. */
  class CpuSet {
    var bits: set<nat>

    constructor ()
      ensures bits == {}
    {
      bits := {};
    }

    method Set(x: nat, sz: nat)
      modifies this
      ensures bits == old(bits) + Kept({x}, sz)
    {
      if x / 8 < sz {
        bits := bits + {x};
      }
    }
  }

  /** CPU_ISSET_S; a NULL set comes with size 0. */
  predicate IsSet(cpus: CpuSet?, x: nat, sz: nat)
    requires cpus == null ==> sz == 0
    reads cpus
  {
    x / 8 < sz && x in cpus.bits
  }

  /** CPU_ALLOC_SIZE: as many whole 64-bit words as needed, in bytes. */
  function AllocSize(nbits: nat): (sz: nat)
    ensures sz % 8 == 0 && nbits <= 8 * sz < nbits + 64
  {
    (nbits + 63) / 64 * 8
  }

  ghost function Kept(cpus: set<nat>, sz: nat): set<nat> {
    set x | x in cpus && x / 8 < sz
  }

  /** The CPUs that have a bit in sz bytes. */
  lemma KeptIff(cpus: set<nat>, sz: nat, x: nat)
    ensures x in Kept(cpus, sz) <==> x in cpus && x < 8 * sz
  {
  }

  /** strnlen */
  function StrNLen(s: seq<char>): (n: nat)
    ensures n <= |s|
    ensures forall k :: 0 <= k < n ==> s[k] != '\0'
    ensures n < |s| ==> s[n] == '\0'
  {
    if s == [] || s[0] == '\0' then 0 else 1 + StrNLen(s[1..])
  }

  function NBits(len: nat): nat {
    32 * (len / 9) + 4 * (len % 9)
  }

  // ----- what the code computes, for any content -----

  /** The chunk values in the order in which the loop finds them, the first one at index c of
      the text. An index below the text is moved to its start. `parse` stands for strtoul. */
  ghost function ChunkValues(parse: seq<char> -> nat, text: seq<char>, c: int): seq<nat>
    requires -8 <= c <= |text|
    decreases c + 8
  {
    var start := if c < 0 then 0 else c;
    [parse(text[start..])] + if start - 9 >= -8 then ChunkValues(parse, text, start - 9) else []
  }

  /** Bit b of value number k, counted from i, stands for CPU 32 k + b. */
  ghost function CpusOf(values: seq<nat>, i: nat): set<nat> {
    if values == [] then {} else ShiftedBits(values[0], 32 * i) + CpusOf(values[1..], i + 1)
  }

  /** The C string read_mapping works on. */
  ghost function TextOf(content: seq<char>): (text: seq<char>)
    ensures |text| < BUF_SIZE
  {
    var got := content[..Min(BUF_SIZE - 1, |content|)];
    got[..StrNLen(got)]
  }

  ghost function MappedCpus(content: seq<char>): set<nat> {
    var text := TextOf(content);
    Kept(CpusOf(ChunkValues(StrToUl16, text, |text| - 8), 0), AllocSize(NBits(|text|)))
  }

  method AddChunk(cpus: CpuSet, sz: nat, value: nat, i: nat)
    modifies cpus
    ensures cpus.bits == old(cpus.bits) + Kept(ShiftedBits(value, 32 * i), sz)
  {
    var chunk := value;
    while chunk != 0
      invariant cpus.bits + Kept(ShiftedBits(chunk, 32 * i), sz)
                == old(cpus.bits) + Kept(ShiftedBits(value, 32 * i), sz)
      decreases chunk
    {
      var j := LowestBit(chunk);
      var x := i * 32 + j;
      cpus.Set(x, sz);
      LowestBitSplit(chunk, 32 * i);
      chunk := ClearBit(chunk, j);
    }
  }

  lemma ClearedMember(chunk: nat, base: nat, j: nat, x: nat)
    ensures x in ShiftedBits(ClearBit(chunk, j), base) <==> x in ShiftedBits(chunk, base) && x != base + j
  {
    ShiftedBitsMember(chunk, base, x);
    ShiftedBitsMember(ClearBit(chunk, j), base, x);
    if x >= base { BitOfClearBit(chunk, j, x - base); }
  }

  /** Taking the lowest bit out of a chunk takes exactly one CPU out of it. */
  lemma LowestBitSplit(chunk: nat, base: nat)
    requires chunk > 0
    ensures ClearBit(chunk, LowestBit(chunk)) < chunk
    ensures base + LowestBit(chunk) in ShiftedBits(chunk, base)
    ensures ShiftedBits(ClearBit(chunk, LowestBit(chunk)), base) == ShiftedBits(chunk, base) - {base + LowestBit(chunk)}
  {
    var j := LowestBit(chunk);
    LowestBitIsLowest(chunk);
    ClearBitDecreases(chunk, j);
    ShiftedBitsMember(chunk, base, base + j);
    forall x: nat
      ensures x in ShiftedBits(ClearBit(chunk, j), base) <==> x in ShiftedBits(chunk, base) && x != base + j
    {
      ClearedMember(chunk, base, j, x);
    }
  }

  /** The do-while loop over the chunks of the first len bytes of the buffer. */
  method ParseChunks(text: seq<char>, cpus: CpuSet, sz: nat)
    modifies cpus
    ensures cpus.bits == old(cpus.bits) + Kept(CpusOf(ChunkValues(StrToUl16, text, |text| - 8), 0), sz)
  {
    var chunkStr := |text| - 8;
    var i := 0;
    ghost var goal := old(cpus.bits) + Kept(CpusOf(ChunkValues(StrToUl16, text, |text| - 8), 0), sz);
    while true
      invariant -8 <= chunkStr <= |text|
      invariant cpus.bits + Kept(CpusOf(ChunkValues(StrToUl16, text, chunkStr), i), sz) == goal
      decreases chunkStr + 8
    {
      if chunkStr < 0 {
        chunkStr := 0;
      }
      var chunk := StrToUl16(text[chunkStr..]);
      AddChunk(cpus, sz, chunk, i);
      NextChunk(text, chunkStr, i, sz);
      chunkStr := chunkStr - 9;
      i := i + 1;
      if !(chunkStr >= -8) {
        break;
      }
    }
  }

  lemma NextChunk(text: seq<char>, start: nat, i: nat, sz: nat)
    requires start <= |text|
    ensures Kept(CpusOf(ChunkValues(StrToUl16, text, start), i), sz)
            == Kept(ShiftedBits(StrToUl16(text[start..]), 32 * i), sz)
               + if start - 9 >= -8 then Kept(CpusOf(ChunkValues(StrToUl16, text, start - 9), i + 1), sz) else {}
  {
  }

  method ReadMapping(file: File, nOnline: int) returns (ret: int, cpus: CpuSet?, sz: nat)
    ensures cpus != null ==> fresh(cpus)
    ensures cpus == null ==> sz == 0
    ensures -1 <= ret <= 0
    ensures ret == 0 ==> nOnline <= 4096 && file.present
    ensures ret == 0 && file.content == [] ==> cpus == null
    ensures ret == 0 && file.content != [] ==>
      && cpus != null && sz == AllocSize(NBits(|TextOf(file.content)|))
      && cpus.bits == MappedCpus(file.content)
    ensures nOnline <= 4096 && file.ErrorFree() ==> ret == 0
  {
    ret := -1;
    cpus, sz := null, 0;
    if nOnline > 4096 {
      return;
    }
    var buf := new char[BUF_SIZE](_ => '\0');
    ret := ReadFile(file, buf, BUF_SIZE - 1);
    if ret <= 0 {
      return;
    }
    TerminatedText(file.content, buf[..]);
    var len := StrNLen(buf[..]);
    cpus, sz := ParseText(buf[..len]);
    ret := 0;
  }

  /** The part of read_mapping after the read: allocate an empty set, fill it. */
  method ParseText(text: seq<char>) returns (cpus: CpuSet, sz: nat)
    ensures fresh(cpus)
    ensures sz == AllocSize(NBits(|text|))
    ensures cpus.bits == Kept(CpusOf(ChunkValues(StrToUl16, text, |text| - 8), 0), sz)
  {
    var nbits := NBits(|text|);
    sz := AllocSize(nbits);
    cpus := new CpuSet();
    ParseChunks(text, cpus, sz);
  }

  lemma StrNLenPadded(s: seq<char>, tail: seq<char>)
    requires tail != [] && tail[0] == '\0'
    ensures StrNLen(s + tail) == StrNLen(s)
  {
    var n := StrNLen(s + tail);
    assert n <= |s| by { assert (s + tail)[|s|] == '\0'; }
    assert forall k :: 0 <= k < |s| ==> (s + tail)[k] == s[k];
  }

  /** The zeroes the buffer starts out with end the string. */
  lemma TerminatedText(content: seq<char>, buf: seq<char>)
    requires var got := Min(BUF_SIZE - 1, |content|);
             |buf| == BUF_SIZE && buf[..got] == content[..got] && forall k :: got <= k < BUF_SIZE ==> buf[k] == '\0'
    ensures buf[..StrNLen(buf)] == TextOf(content)
  {
    var got := Min(BUF_SIZE - 1, |content|);
    assert buf == content[..got] + buf[got..];
    StrNLenPadded(content[..got], buf[got..]);
  }

  // ----- parsing undoes printing -----

  /** Group g is in the text from index `at` on and is not followed by another digit. */
  ghost predicate GroupAt(text: seq<char>, at: nat, g: seq<char>) {
    && AllHex(g) && 1 <= |g| <= 8 && at + |g| <= |text| && text[at..at + |g|] == g
    && (at + |g| < |text| ==> text[at + |g|] == ',')
  }

  lemma ParseGroupAt(text: seq<char>, at: nat, g: seq<char>)
    requires GroupAt(text, at, g)
    ensures StrToUl16(text[at..]) == HexValue(g)
  {
    assert text[at..] == g + text[at + |g|..];
    GroupParse(g, text[at + |g|..]);
  }

  /** Where group k starts in the text of a mask whose first group has w digits. */
  function GroupStart(w: nat, k: nat): int {
    if k == 0 then 0 else w + 9 * k - 8
  }

  ghost predicate GroupsAt(text: seq<char>, gs: seq<seq<char>>)
    requires gs != []
  {
    forall k :: 0 <= k < |gs| ==> GroupStart(|gs[0]|, k) >= 0 && GroupAt(text, GroupStart(|gs[0]|, k), gs[k])
  }

  lemma MaskSplit(gs: seq<seq<char>>)
    requires IsMask(gs) && |gs| > 1
    ensures var front, g := gs[..|gs| - 1], gs[|gs| - 1];
      && IsMask(front) && gs == front + [g] && AllHex(g) && |g| == 8
      && Join(gs) == Join(front) + ([','] + g)
  {
  }

  lemma {:induction false} JoinLength(gs: seq<seq<char>>)
    requires IsMask(gs)
    ensures |Join(gs)| == |gs[0]| + 9 * (|gs| - 1)
    decreases |gs|
  {
    if |gs| > 1 {
      MaskSplit(gs);
      JoinLength(gs[..|gs| - 1]);
    }
  }

  lemma {:induction false} JoinGroupsAt(gs: seq<seq<char>>)
    requires IsMask(gs)
    ensures GroupsAt(Join(gs), gs)
    decreases |gs|
  {
    if |gs| > 1 {
      var front, g := gs[..|gs| - 1], gs[|gs| - 1];
      MaskSplit(gs);
      JoinLength(front);
      JoinGroupsAt(front);
      GroupsSnoc(Join(front), front, g);
    }
  }

  lemma GroupsSnoc(text: seq<char>, gs: seq<seq<char>>, g: seq<char>)
    requires gs != [] && GroupsAt(text, gs) && |text| == |gs[0]| + 9 * (|gs| - 1)
    requires AllHex(g) && |g| == 8
    ensures GroupsAt(text + ([','] + g), gs + [g])
  {
    GroupsKept(text, [','] + g, gs);
    LastGroupAt(text, g);
  }

  lemma GroupsKept(text: seq<char>, more: seq<char>, gs: seq<seq<char>>)
    requires gs != [] && GroupsAt(text, gs) && (more == [] || more[0] == ',')
    ensures GroupsAt(text + more, gs)
  {
    forall k | 0 <= k < |gs| ensures GroupAt(text + more, GroupStart(|gs[0]|, k), gs[k]) {
      GroupAtPrefix(text, more, GroupStart(|gs[0]|, k), gs[k]);
    }
  }

  lemma LastGroupAt(text: seq<char>, g: seq<char>)
    requires AllHex(g) && 1 <= |g| <= 8
    ensures GroupAt(text + ([','] + g), |text| + 1, g)
  {
    assert (text + ([','] + g))[|text| + 1..] == g;
  }

  lemma GroupAtPrefix(text: seq<char>, more: seq<char>, at: nat, g: seq<char>)
    requires GroupAt(text, at, g) && (more == [] || more[0] == ',')
    ensures GroupAt(text + more, at, g)
  {
    assert (text + more)[at..at + |g|] == text[at..at + |g|];
  }

  /** values lists entries k, k - 1, ..., 0 of vs. */
  ghost predicate CountsDown(values: seq<nat>, vs: seq<nat>, k: nat)
    requires k < |vs|
  {
    |values| == k + 1 && forall j :: 0 <= j <= k ==> values[j] == vs[k - j]
  }

  /** parse finds number k of the mask where group k starts. */
  ghost predicate NumberAt(parse: seq<char> -> nat, text: seq<char>, vs: seq<nat>, w: nat, k: nat) {
    k < |vs| && 0 <= GroupStart(w, k) <= |text| && parse(text[GroupStart(w, k)..]) == vs[k]
  }

  /** At group k the parsed number is vs[k], and the next chunk starts 9 characters earlier. */
  lemma ChunkStep(parse: seq<char> -> nat, text: seq<char>, vs: seq<nat>, w: nat, k: nat)
    requires k < |vs| && 1 <= w <= 8 && w + 9 * k - 8 <= |text|
    requires NumbersAt(parse, text, vs, w)
    ensures ChunkValues(parse, text, w + 9 * k - 8)
         == [vs[k]] + if k == 0 then [] else ChunkValues(parse, text, w + 9 * k - 17)
  {
    assert NumberAt(parse, text, vs, w, k);
  }

  /** The clamp and the exit test visit each group once, from right to left. */
  lemma {:induction false} ChunksAreNumbers(parse: seq<char> -> nat, text: seq<char>, vs: seq<nat>, w: nat, k: nat)
    requires k < |vs| && 1 <= w <= 8 && w + 9 * k - 8 <= |text|
    requires NumbersAt(parse, text, vs, w)
    ensures CountsDown(ChunkValues(parse, text, w + 9 * k - 8), vs, k)
    decreases k
  {
    ChunkStep(parse, text, vs, w, k);
    if k > 0 {
      ChunksAreNumbers(parse, text, vs, w, k - 1);
      CountsDownStep(ChunkValues(parse, text, w + 9 * k - 17), vs, k);
    }
  }

  lemma CountsDownStep(values: seq<nat>, vs: seq<nat>, k: nat)
    requires 0 < k < |vs| && CountsDown(values, vs, k - 1)
    ensures CountsDown([vs[k]] + values, vs, k)
  {
  }

  ghost predicate NumbersAt(parse: seq<char> -> nat, text: seq<char>, vs: seq<nat>, w: nat) {
    forall k :: 0 <= k < |vs| ==> NumberAt(parse, text, vs, w, k)
  }

  lemma ParseMaskNumbers(gs: seq<seq<char>>, text: seq<char>)
    requires IsMask(gs) && GroupsAt(text, gs)
    ensures NumbersAt(StrToUl16, text, Numbers(gs), |gs[0]|)
  {
    forall k | 0 <= k < |gs| ensures NumberAt(StrToUl16, text, Numbers(gs), |gs[0]|, k) {
      assert GroupAt(text, GroupStart(|gs[0]|, k), gs[k]);
      ParseGroupAt(text, GroupStart(|gs[0]|, k), gs[k]);
    }
  }

  /** The chunks of a mask are its groups, last group first. */
  lemma ChunkValuesOfMask(gs: seq<seq<char>>)
    requires IsMask(gs)
    ensures |Join(gs)| >= 1
    ensures CountsDown(ChunkValues(StrToUl16, Join(gs), |Join(gs)| - 8), Numbers(gs), |gs| - 1)
  {
    var text, vs, w := Join(gs), Numbers(gs), |gs[0]|;
    JoinLength(gs);
    assert NumbersAt(StrToUl16, text, vs, w) by {
      JoinGroupsAt(gs);
      ParseMaskNumbers(gs, text);
    }
    ChunksAreNumbers(StrToUl16, text, vs, w, |gs| - 1);
  }

  // ----- from chunk values to CPUs -----

  ghost predicate ValueHolds(values: seq<nat>, i: nat, k: nat, x: nat) {
    k < |values| && HasShiftedBit(values[k], 32 * (i + k), x)
  }

  lemma {:induction false} CpusOfMember(values: seq<nat>, i: nat, x: nat)
    ensures x in CpusOf(values, i) <==> exists k: nat :: ValueHolds(values, i, k, x)
    decreases |values|
  {
    if values != [] {
      ShiftedBitsMember(values[0], 32 * i, x);
      var rest, next := values[1..], i + 1;
      CpusOfMember(rest, next, x);
      if k: nat :| ValueHolds(rest, next, k, x) {
        assert ValueHolds(values, i, k + 1, x);
      }
      if k: nat :| ValueHolds(values, i, k, x) {
        if k > 0 {
          assert ValueHolds(rest, next, k - 1, x);
        }
      }
      if x in ShiftedBits(values[0], 32 * i) {
        assert ValueHolds(values, i, 0, x);
      }
    }
  }

  /** The bits of number i from the right are the CPUs of the mask in [32 i, 32 i + 32). */
  lemma NumberMembers(vs: seq<nat>, i: nat, x: nat)
    requires i < |vs| && vs[|vs| - 1 - i] < 0x1_0000_0000
    ensures HasShiftedBit(vs[|vs| - 1 - i], 32 * i, x) <==> Denotes(vs, x) && x / 32 == i
  {
    ThirtyTwoBits(vs[|vs| - 1 - i], 32 * i, x);
  }

  ghost predicate AllWords(vs: seq<nat>) {
    forall k :: 0 <= k < |vs| ==> vs[k] < 0x1_0000_0000
  }

  lemma CountDownHolds(vs: seq<nat>, values: seq<nat>, k: nat, x: nat)
    requires AllWords(vs) && vs != [] && CountsDown(values, vs, |vs| - 1)
    ensures ValueHolds(values, 0, k, x) <==> Denotes(vs, x) && x / 32 == k
  {
    if k < |vs| {
      NumberMembers(vs, k, x);
    }
  }

  lemma CpusOfNumbers(vs: seq<nat>, values: seq<nat>, x: nat)
    requires AllWords(vs) && vs != [] && CountsDown(values, vs, |vs| - 1)
    ensures x in CpusOf(values, 0) <==> Denotes(vs, x)
  {
    CpusOfMember(values, 0, x);
    CountDownHolds(vs, values, x / 32, x);
    if k: nat :| ValueHolds(values, 0, k, x) {
      CountDownHolds(vs, values, k, x);
    }
  }

  lemma NumbersAreWords(gs: seq<seq<char>>)
    requires IsMask(gs)
    ensures AllWords(Numbers(gs))
  {
    forall k | 0 <= k < |gs| ensures Numbers(gs)[k] < 0x1_0000_0000 {
      GroupValueBound(gs[k]);
    }
  }

  lemma ThirtyTwoBits(v: nat, base: nat, x: nat)
    requires v < 0x1_0000_0000
    ensures HasShiftedBit(v, base, x) ==> x < base + 32
  {
    WordSizes();
    if HasShiftedBit(v, base, x) { SmallHasNoBit(v, 32, x - base); }
  }

  /** The capacity computed from the length is the number of bits the digits can express. */
  lemma NBitsOfMask(gs: seq<seq<char>>)
    requires IsMask(gs)
    ensures NBits(|Join(gs)|) == 32 * (|gs| - 1) + 4 * |gs[0]| <= 8 * AllocSize(NBits(|Join(gs)|))
  {
    JoinLength(gs);
    LengthSplit(|gs| - 1, |gs[0]|);
  }

  lemma LengthSplit(q: nat, r: nat)
    requires r <= 8
    ensures 32 * q + 4 * r == NBits(r + 9 * q) <= 8 * AllocSize(NBits(r + 9 * q))
  {
    assert (r + 9 * q) / 9 == q && (r + 9 * q) % 9 == r;
  }

  /** No CPU of a mask is dropped by CPU_SET_S. */
  lemma NoCpuDropped(gs: seq<seq<char>>, x: nat)
    requires IsMask(gs) && Denotes(Numbers(gs), x)
    ensures x < NBits(|Join(gs)|) && x / 8 < AllocSize(NBits(|Join(gs)|))
  {
    NBitsOfMask(gs);
    DenotesBound(gs, x);
  }

  lemma {:induction false} JoinHasNoNul(gs: seq<seq<char>>)
    requires IsMask(gs)
    ensures forall k :: 0 <= k < |Join(gs)| ==> Join(gs)[k] != '\0'
  {
    var m := |gs| - 1;
    forall k | 0 <= k < |gs[m]| ensures gs[m][k] != '\0' {
      assert IsHexDigit(gs[m][k]);
    }
    if m > 0 { JoinHasNoNul(gs[..m]); }
  }

  /** 128 groups, the masks of 4096 CPUs, fit the buffer. */
  lemma MaskFitsBuffer(gs: seq<seq<char>>)
    requires IsMask(gs) && |gs| <= 128
    ensures |Join(gs)| < BUF_SIZE - 1 && TextOf(Join(gs)) == Join(gs)
  {
    JoinLength(gs);
    JoinHasNoNul(gs);
    assert Join(gs)[..|Join(gs)|] == Join(gs);
  }

  /** Any mask of up to 4096 CPUs is read exactly. */
  lemma MappedCpusOfMask(gs: seq<seq<char>>)
    requires IsMask(gs) && |gs| <= 128
    ensures MappedCpus(Join(gs)) == MaskCpus(gs)
  {
    var text := Join(gs);
    assert TextOf(text) == text by { MaskFitsBuffer(gs); }
    ChunkValuesOfMask(gs);
    forall x: nat ensures x in MappedCpus(text) <==> x in MaskCpus(gs) {
      KeptNumbers(gs, ChunkValues(StrToUl16, text, |text| - 8), x);
    }
  }

  lemma KeptNumbers(gs: seq<seq<char>>, values: seq<nat>, x: nat)
    requires IsMask(gs) && CountsDown(values, Numbers(gs), |gs| - 1)
    ensures x in Kept(CpusOf(values, 0), AllocSize(NBits(|Join(gs)|))) <==> Denotes(Numbers(gs), x)
  {
    NumbersAreWords(gs);
    CpusOfNumbers(Numbers(gs), values, x);
    if Denotes(Numbers(gs), x) { NoCpuDropped(gs, x); }
  }

  /** Main result: parsing undoes printing, for every CPU set, number of groups and width of the
      first group. */
  lemma ParseUndoesPrint(cpus: set<nat>, count: nat, width: nat)
    requires 1 <= count <= 128 && 1 <= width <= 8 && Fits(cpus, count, width)
    ensures MappedCpus(PrintMask(cpus, count, width)) == cpus
    ensures PrintMask(cpus, count, width) != []
  {
    var gs := MaskGroups(cpus, count, width);
    MappedCpusOfMask(gs);
    MaskGroupsDenote(cpus, count, width);
    JoinLength(gs);
  }

  // ----- the callers -----

  /** A machine word that holds exactly the CPUs below 64. */
  ghost predicate IsWordOf(mask: nat, cpus: set<nat>) {
    mask <= ULONG_MAX && forall k: nat :: Bit(mask, k) <==> k < 64 && k in cpus
  }

  method CpuSetToUll(cpus: CpuSet?, sz: nat) returns (mask: nat)
    requires cpus == null ==> sz == 0
    ensures IsWordOf(mask, if cpus == null then {} else Kept(cpus.bits, sz))
  {
    mask := 0;
    WordSizes();
    NoBitsInZero();
    var i := 0;
    while i < 64
      invariant i <= 64 && mask < Pow2(i)
      invariant forall k: nat :: Bit(mask, k) <==> k < i && IsSet(cpus, k, sz)
    {
      if IsSet(cpus, i, sz) {
        SetTopBit(mask, i);
        forall k: nat ensures Bit(SetBit(mask, i), k) <==> Bit(mask, k) || k == i {
          BitOfSetBit(mask, i, k);
        }
        mask := SetBit(mask, i);
      }
      i := i + 1;
    }
  }

  lemma NoBitsInZero()
    ensures forall k: nat :: !Bit(0, k)
  {
    forall k: nat ensures !Bit(0, k) {
      if Bit(0, k) { BitIsSmall(0, k); }
    }
  }

  lemma {:induction false} SetTopBit(v: nat, i: nat)
    requires v < Pow2(i)
    ensures SetBit(v, i) == v + Pow2(i)
    decreases i
  {
    if i > 0 { SetTopBit(v / 2, i - 1); }
  }

  /** *mask keeps the value mask0 when the call fails. */
  method DomainToCpus(file: File, nOnline: int, mask0: nat) returns (ret: int, mask: nat)
    ensures -1 <= ret <= 0
    ensures ret == -1 ==> mask == mask0
    ensures ret == 0 ==> 0 <= nOnline <= 64
    ensures ret == 0 ==> IsWordOf(mask, if file.content == [] then {} else MappedCpus(file.content))
    ensures 0 <= nOnline <= 64 && file.ErrorFree() ==> ret == 0
  {
    mask := mask0;
    if nOnline < 0 || nOnline > 64 {  // compared as size_t: a negative count is a huge one
      return -1, mask;
    }
    var bits, sz;
    ret, bits, sz := ReadMapping(file, nOnline);
    if ret == 0 {
      mask := CpuSetToUll(bits, sz);
      if file.content != [] {
        assert Kept(bits.bits, sz) == bits.bits;
      }
    }
  }

  /** For any 64-bit mask, what domain_to_cpus makes of a printed form of it is that mask. */
  lemma WordRoundTrip(m: nat, count: nat, width: nat, mask: nat)
    requires m <= ULONG_MAX && 1 <= count <= 128 && 1 <= width <= 8 && Fits(BitSet(m), count, width)
    requires IsWordOf(mask, MappedCpus(PrintMask(BitSet(m), count, width)))
    ensures mask == m
  {
    ParseUndoesPrint(BitSet(m), count, width);
    WordSizes();
    forall k: nat ensures Bit(mask, k) <==> Bit(m, k) {
      WordBit(m, k);
    }
    BitsDetermine(mask, m);
  }

  lemma WordBit(m: nat, k: nat)
    requires m < Pow2(64)
    ensures Bit(m, k) <==> k < 64 && k in BitSet(m)
  {
    ShiftedBitsMember(m, 0, k);
    if Bit(m, k) { SmallHasNoBit(m, 64, k); }
  }

  /** first is the lowest CPU of the set below the online count, or -1 if there is none. */
  ghost predicate IsFirstCpu(first: int, cpus: set<nat>, nOnline: int) {
    if first == -1 then forall x :: 0 <= x < nOnline ==> x !in cpus
    else 0 <= first < nOnline && first in cpus && forall x :: 0 <= x < first ==> x !in cpus
  }

  method DomainToFirstCpu(file: File, nOnline: int) returns (first: int)
    ensures nOnline <= 4096 && file.ErrorFree() ==>
      IsFirstCpu(first, if file.content == [] then {} else MappedCpus(file.content), nOnline)
    ensures !(nOnline <= 4096 && file.present) ==> first == -1
    ensures first >= 0 ==> file.content != [] && IsFirstCpu(first, MappedCpus(file.content), nOnline)
  {
    var ret, bits, sz := ReadMapping(file, nOnline);
    if ret != 0 {
      return ret;
    }
    if file.content != [] {
      forall x | x in bits.bits ensures x / 8 < sz {
        assert x in MappedCpus(file.content);
      }
    }
    first := -1;
    var i := 0;
    while i < nOnline
      invariant 0 <= i && first == -1
      invariant forall x: nat :: x < i ==> !IsSet(bits, x, sz)
    {
      if IsSet(bits, i, sz) {
        first := i;
        break;
      }
      i := i + 1;
    }
    if file.content != [] {
      forall x: nat | x < i ensures x !in MappedCpus(file.content) {
        assert !IsSet(bits, x, sz);
      }
    }
  }
}
