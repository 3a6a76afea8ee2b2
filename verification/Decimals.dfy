/**
  The decimal numbers of strtod, section 7.22.1.3 of ISO/IEC 9899:2011, as fscanf reads them:
  character by character, by the longest text that can still become a number.
 */
module Decimals {

  /** How far a number has been read: sign, digits, point, exponent. */
  datatype Reading = Start | Signed | Digits | Point | Fraction | Exponent | ExponentSigned | ExponentDigits | Over

  predicate IsDigit(c: char) {
    '0' <= c <= '9'
  }

  lemma DigitIff(c: char)
    ensures IsDigit(c) <==> c in "0123456789"
  {
    if IsDigit(c) {
      assert c == "0123456789"[c as int - '0' as int];
    }
  }

  function ReadOn(r: Reading, c: char): Reading {
    match r
    case Start =>
      if c == '+' || c == '-' then Signed else if IsDigit(c) then Digits else if c == '.' then Point else Over
    case Signed => if IsDigit(c) then Digits else if c == '.' then Point else Over
    case Digits =>
      if IsDigit(c) then Digits else if c == '.' then Fraction else if c == 'e' || c == 'E' then Exponent else Over
    case Point => if IsDigit(c) then Fraction else Over
    case Fraction => if IsDigit(c) then Fraction else if c == 'e' || c == 'E' then Exponent else Over
    case Exponent => if c == '+' || c == '-' then ExponentSigned else if IsDigit(c) then ExponentDigits else Over
    case ExponentSigned => if IsDigit(c) then ExponentDigits else Over
    case ExponentDigits => if IsDigit(c) then ExponentDigits else Over
    case Over => Over
  }

  predicate IsNumber(r: Reading) {
    r == Digits || r == Fraction || r == ExponentDigits
  }

  /** The length of the longest start of t that is, or could be continued to, a number. */
  function NumberLength(r: Reading, t: seq<char>): (n: nat)
    ensures n <= |t|
    decreases t
  {
    if t == [] || ReadOn(r, t[0]) == Over then 0 else 1 + NumberLength(ReadOn(r, t[0]), t[1..])
  }

  function ReadingAfter(r: Reading, t: seq<char>): Reading
    decreases t
  {
    if t == [] || ReadOn(r, t[0]) == Over then r else ReadingAfter(ReadOn(r, t[0]), t[1..])
  }

  /** The number a field starts with, and whether there is one. */
  function NumberText(t: seq<char>): seq<char> {
    t[..NumberLength(Start, t)]
  }

  predicate StartsWithNumber(t: seq<char>) {
    IsNumber(ReadingAfter(Start, t))
  }

  // ----- the grammar -----

  ghost predicate DigitsIn(s: seq<char>, a: int, b: int) {
    0 <= a <= b <= |s| && forall k :: a <= k < b ==> IsDigit(s[k])
  }

  ghost predicate SignAt(s: seq<char>, k: int) {
    0 <= k < |s| && (s[k] == '+' || s[k] == '-')
  }

  /** An optional sign s[..i], the digits s[i..p], and a point with more digits if p < e; one digit
      at least. */
  ghost predicate Mantissa(s: seq<char>, i: int, p: int, e: int) {
    && 0 <= i <= 1 && (i == 1 ==> SignAt(s, 0)) && i <= p <= e <= |s| && DigitsIn(s, i, p)
    && (p < e ==> s[p] == '.' && DigitsIn(s, p + 1, e))
    && (p > i || e > p + 1)
  }

  /** From e on an e, an optional sign, and the digits s[x..]; one digit at least. */
  ghost predicate ExponentAt(s: seq<char>, e: int, x: int) {
    && 0 <= e < |s| && (s[e] == 'e' || s[e] == 'E')
    && (x == e + 1 || (x == e + 2 && SignAt(s, e + 1))) && x < |s| && DigitsIn(s, x, |s|)
  }

  ghost predicate SplitAt(s: seq<char>, i: int, p: int, e: int, x: int) {
    Mantissa(s, i, p, e) && (e == |s| || ExponentAt(s, e, x))
  }

  ghost predicate IsDecimal(s: seq<char>) {
    exists i, p, e, x :: SplitAt(s, i, p, e, x)
  }

  ghost predicate CanBecomeDecimal(s: seq<char>) {
    exists u :: IsDecimal(s + u)
  }

  // ----- reading from the left, one character more at a time -----

  ghost function Run(r: Reading, s: seq<char>): Reading {
    if s == [] then r else ReadOn(Run(r, s[..|s| - 1]), s[|s| - 1])
  }

  lemma {:induction false} RunAppend(r: Reading, a: seq<char>, b: seq<char>)
    ensures Run(r, a + b) == Run(Run(r, a), b)
    decreases |b|
  {
    if b == [] {
      assert a + b == a;
    } else {
      var m := |b| - 1;
      RunAppend(r, a, b[..m]);
      assert (a + b)[..|a + b| - 1] == a + b[..m];
    }
  }

  lemma {:induction false} RunOver(s: seq<char>)
    ensures Run(Over, s) == Over
    decreases |s|
  {
    if s != [] { RunOver(s[..|s| - 1]); }
  }

  /** Where digits lead to. */
  function AfterDigits(r: Reading): Reading {
    match r
    case Start | Signed | Digits => Digits
    case Point | Fraction => Fraction
    case Exponent | ExponentSigned | ExponentDigits => ExponentDigits
    case Over => Over
  }

  lemma RunNext(s: seq<char>, k: nat)
    requires k < |s|
    ensures Run(Start, s[..k + 1]) == ReadOn(Run(Start, s[..k]), s[k])
  {
    assert s[..k + 1][..k] == s[..k];
  }

  lemma {:induction false} RunDigits(s: seq<char>, a: nat, b: nat)
    requires DigitsIn(s, a, b)
    ensures Run(Start, s[..b]) == if a == b then Run(Start, s[..a]) else AfterDigits(Run(Start, s[..a]))
    decreases b
  {
    if a < b {
      RunDigits(s, a, b - 1);
      RunNext(s, b - 1);
    }
  }

  // ----- what has been read is the beginning of a number -----

  /** s is as far as the reading r has come. */
  ghost predicate Reached(r: Reading, s: seq<char>, i: int, p: int, e: int, x: int) {
    && 0 <= i <= 1 && (i == 1 ==> SignAt(s, 0))
    && match r
       case Start => s == [] && i == 0
       case Signed => |s| == i == 1
       case Digits => p == e == |s| && Mantissa(s, i, p, e)
       case Point => |s| == p + 1 && p == i && s[p] == '.'
       case Fraction => p < e == |s| && Mantissa(s, i, p, e)
       case Exponent => |s| == e + 1 && Mantissa(s, i, p, e) && (s[e] == 'e' || s[e] == 'E')
       case ExponentSigned =>
         |s| == e + 2 && Mantissa(s, i, p, e) && (s[e] == 'e' || s[e] == 'E') && SignAt(s, e + 1)
       case ExponentDigits => Mantissa(s, i, p, e) && ExponentAt(s, e, x)
       case Over => false
  }

  lemma {:induction false} PartsRead(s: seq<char>) returns (i: int, p: int, e: int, x: int)
    requires Run(Start, s) != Over
    ensures Reached(Run(Start, s), s, i, p, e, x)
    decreases |s|
  {
    if s == [] {
      i, p, e, x := 0, 0, 0, 0;
    } else {
      var m := |s| - 1;
      i, p, e, x := PartsRead(s[..m]);
      i, p, e, x := PartsReadOn(Run(Start, s[..m]), s[..m], s[m], i, p, e, x);
      assert s == s[..m] + [s[m]];
    }
  }

  lemma PartsReadOn(r: Reading, t: seq<char>, c: char, i: int, p: int, e: int, x: int)
    returns (i': int, p': int, e': int, x': int)
    requires Reached(r, t, i, p, e, x) && ReadOn(r, c) != Over
    ensures Reached(ReadOn(r, c), t + [c], i', p', e', x')
  {
    var m := |t|;
    i', p', e', x' := i, p, e, x;
    match ReadOn(r, c)
    case Signed => i' := 1;
    case Digits => p', e' := m + 1, m + 1;
    case Point => p' := m;
    case Fraction =>
      if r == Digits { p' := m; }
      e' := m + 1;
    case Exponent => e' := m;
    case ExponentSigned =>
    case _ =>
      if r != ExponentDigits { x' := m; }
  }

  lemma DecimalIsRead(s: seq<char>, i: int, p: int, e: int, x: int)
    requires SplitAt(s, i, p, e, x)
    ensures IsNumber(Run(Start, s))
  {
    MantissaIsRead(s, i, p, e);
    assert s[..|s|] == s;
    if e < |s| {
      RunNext(s, e);
      if x == e + 2 { RunNext(s, e + 1); }
      RunDigits(s, x, |s|);
    }
  }

  lemma MantissaIsRead(s: seq<char>, i: int, p: int, e: int)
    requires Mantissa(s, i, p, e)
    ensures Run(Start, s[..e]) == Digits || Run(Start, s[..e]) == Fraction
  {
    assert s[..0] == [];
    if i == 1 { RunNext(s, 0); }
    RunDigits(s, i, p);
    if p < e {
      RunNext(s, p);
      RunDigits(s, p + 1, e);
    }
  }

  /** The automaton accepts exactly the grammar. */
  lemma DecimalIff(s: seq<char>)
    ensures IsDecimal(s) <==> IsNumber(Run(Start, s))
  {
    if IsDecimal(s) {
      var i, p, e, x :| SplitAt(s, i, p, e, x);
      DecimalIsRead(s, i, p, e, x);
    }
    if IsNumber(Run(Start, s)) {
      var i, p, e, x := PartsRead(s);
      assert SplitAt(s, i, p, e, x);
    }
  }

  /** It gives up exactly when no continuation would be a number: as long as it has not, a 0 makes it
      one. */
  lemma CanBecomeDecimalIff(s: seq<char>)
    ensures CanBecomeDecimal(s) <==> Run(Start, s) != Over
  {
    if CanBecomeDecimal(s) {
      var u :| IsDecimal(s + u);
      DecimalIff(s + u);
      RunAppend(Start, s, u);
      if Run(Start, s) == Over { RunOver(u); }
    }
    if Run(Start, s) != Over {
      DecimalIff(s + ['0']);
      assert (s + ['0'])[..|s|] == s;
    }
  }

  // ----- what fscanf takes -----

  lemma {:induction false} ReadsLongest(r: Reading, t: seq<char>)
    requires r != Over
    ensures var n := NumberLength(r, t);
      && Run(r, t[..n]) == ReadingAfter(r, t) != Over
      && (n < |t| ==> Run(r, t[..n + 1]) == Over)
    decreases |t|
  {
    var n := NumberLength(r, t);
    if t != [] {
      var r' := ReadOn(r, t[0]);
      assert t[..1] == [t[0]];
      RunOne(r, t[0]);
      if r' != Over {
        ReadsLongest(r', t[1..]);
        RunAppend(r, [t[0]], t[1..][..n - 1]);
        assert t[..n] == [t[0]] + t[1..][..n - 1];
        if n < |t| {
          RunAppend(r, [t[0]], t[1..][..n]);
          assert t[..n + 1] == [t[0]] + t[1..][..n];
        }
      }
    }
  }

  lemma RunOne(r: Reading, c: char)
    ensures Run(r, [c]) == ReadOn(r, c)
  {
    assert [c][..0] == [];
  }

  /** Main result: of any text the longest start that can become a decimal number is taken, and it
      counts exactly if it is one. */
  lemma NumberTextIsLongest(t: seq<char>)
    ensures CanBecomeDecimal(NumberText(t))
    ensures forall n :: |NumberText(t)| < n <= |t| ==> !CanBecomeDecimal(t[..n])
    ensures StartsWithNumber(t) <==> IsDecimal(NumberText(t))
  {
    var m := |NumberText(t)|;
    ReadsLongest(Start, t);
    CanBecomeDecimalIff(NumberText(t));
    DecimalIff(NumberText(t));
    forall n | m < n <= |t| ensures !CanBecomeDecimal(t[..n]) {
      CanBecomeDecimalIff(t[..n]);
      RunAppend(Start, t[..m + 1], t[m + 1..n]);
      assert t[..n] == t[..m + 1] + t[m + 1..n];
      RunOver(t[m + 1..n]);
    }
  }

  /** A field that is a decimal number is taken as a whole. */
  lemma DecimalIsTaken(f: seq<char>)
    requires IsDecimal(f)
    ensures NumberText(f) == f && StartsWithNumber(f)
  {
    NumberTextIsLongest(f);
    assert f + [] == f && f[..|f|] == f;
    assert CanBecomeDecimal(f);
  }
}
