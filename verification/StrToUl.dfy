/**
  strtoul(s, NULL, 16) by the grammar of section 7.22.1.4 of ISO/IEC 9899:2011: spaces, a sign, a
  mark 0x, and digits, followed by text that is not looked at.
 */
module StrToUl {
  import opened CType
  import opened MaskText

  datatype Numeral = Numeral(spaces: seq<char>, sign: seq<char>, mark: seq<char>, digits: seq<char>, rest: seq<char>)

  ghost function Spelled(n: Numeral): seq<char> {
    n.spaces + (n.sign + (n.mark + (n.digits + n.rest)))
  }

  ghost predicate StartsWithMark(t: seq<char>) {
    |t| >= 3 && t[0] == '0' && (t[1] == 'x' || t[1] == 'X') && IsHexDigit(t[2])
  }

  /** Each part is as long as it can be; a mark counts only if a digit follows. */
  ghost predicate IsSplit(n: Numeral) {
    && (forall k :: 0 <= k < |n.spaces| ==> IsSpace(n.spaces[k]))
    && (n.sign == [] || n.sign == ['+'] || n.sign == ['-'])
    && (n.mark == [] || n.mark == ['0', 'x'] || n.mark == ['0', 'X'])
    && AllHex(n.digits) && (n.rest == [] || !IsHexDigit(n.rest[0]))
    && (if n.mark == [] then !StartsWithMark(n.digits + n.rest) else n.digits != [])
    && var t := n.mark + (n.digits + n.rest);
       n.sign == [] && t != [] ==> !IsSpace(t[0]) && t[0] != '+' && t[0] != '-'
  }

  /** Without digits 0; too large a number gives ULONG_MAX, and a minus sign negates as an
      unsigned long. */
  ghost function Value(n: Numeral): nat
    requires AllHex(n.digits)
  {
    var v := HexValue(n.digits);
    if v > 0xFFFF_FFFF_FFFF_FFFF then 0xFFFF_FFFF_FFFF_FFFF
    else if n.sign == ['-'] && v > 0 then 0x1_0000_0000_0000_0000 - v
    else v
  }

  /** strtoul reads every such text as its value ... */
  lemma ReadsNumeral(n: Numeral)
    requires IsSplit(n)
    ensures StrToUl16(Spelled(n)) == Value(n)
  {
    var t := n.mark + (n.digits + n.rest);
    SignTaken(n.sign, t);
    SpacesSkipped(n.spaces, n.sign + t);
    MarkSkipped(n);
    MagnitudeOfGroup(n.digits, n.rest);
    ReadsSigned(Spelled(n), n.sign, t, HexValue(n.digits));
  }

  lemma SignTaken(sign: seq<char>, t: seq<char>)
    requires sign == [] || sign == ['+'] || sign == ['-']
    requires sign == [] && t != [] ==> !IsSpace(t[0]) && t[0] != '+' && t[0] != '-'
    ensures var u := sign + t;
      && (u == [] || !IsSpace(u[0]))
      && (sign == [] <==> u == [] || (u[0] != '+' && u[0] != '-'))
      && (if sign == [] then u == t else u[0] == sign[0] && u[1..] == t)
  {
  }

  lemma ReadsSigned(s: seq<char>, sign: seq<char>, t: seq<char>, v: nat)
    requires sign == [] || sign == ['+'] || sign == ['-']
    requires var u := SkipSpaces(s);
      && (sign == [] <==> u == [] || (u[0] != '+' && u[0] != '-'))
      && (if sign == [] then u == t else u[0] == sign[0] && u[1..] == t)
    requires Magnitude(SkipHexMark(t)) == v
    ensures StrToUl16(s)
         == if v > 0xFFFF_FFFF_FFFF_FFFF then 0xFFFF_FFFF_FFFF_FFFF
            else if sign == ['-'] && v > 0 then 0x1_0000_0000_0000_0000 - v else v
  {
  }

  lemma {:induction false} SpacesSkipped(spaces: seq<char>, u: seq<char>)
    requires forall k :: 0 <= k < |spaces| ==> IsSpace(spaces[k])
    requires u == [] || !IsSpace(u[0])
    ensures SkipSpaces(spaces + u) == u
    decreases |spaces|
  {
    if spaces == [] {
      assert spaces + u == u;
    } else {
      assert (spaces + u)[1..] == spaces[1..] + u;
      SpacesSkipped(spaces[1..], u);
    }
  }

  lemma MarkSkipped(n: Numeral)
    requires IsSplit(n)
    ensures SkipHexMark(n.mark + (n.digits + n.rest)) == n.digits + n.rest
  {
    var t := n.mark + (n.digits + n.rest);
    if n.mark == [] {
      assert t == n.digits + n.rest;
    } else {
      assert t[2..] == n.digits + n.rest && t[2] == n.digits[0];
    }
  }

  /** ... and every text is of this form. */
  lemma EveryTextSplits(s: seq<char>) returns (n: Numeral)
    ensures IsSplit(n) && Spelled(n) == s
  {
    var spaces, u := LeadingSpaces(s);
    var sign, t := TakeSign(u);
    var mark, digits, rest := TakeDigits(t);
    n := Numeral(spaces, sign, mark, digits, rest);
  }

  lemma TakeSign(u: seq<char>) returns (sign: seq<char>, t: seq<char>)
    requires u == [] || !IsSpace(u[0])
    ensures u == sign + t && (sign == [] || sign == ['+'] || sign == ['-'])
    ensures sign == [] && t != [] ==> !IsSpace(t[0]) && t[0] != '+' && t[0] != '-'
  {
    if u != [] && (u[0] == '+' || u[0] == '-') {
      sign, t := [u[0]], u[1..];
    } else {
      sign, t := [], u;
      assert u == [] + u;
    }
  }

  lemma TakeDigits(t: seq<char>) returns (mark: seq<char>, digits: seq<char>, rest: seq<char>)
    ensures t == mark + (digits + rest)
    ensures mark == [] || mark == ['0', 'x'] || mark == ['0', 'X']
    ensures AllHex(digits) && (rest == [] || !IsHexDigit(rest[0]))
    ensures if mark == [] then !StartsWithMark(digits + rest) else digits != []
  {
    mark := if StartsWithMark(t) then t[..2] else [];
    var d := t[|mark|..];
    var n := HexRun(d);
    digits, rest := d[..n], d[n..];
    assert d == digits + rest;
    assert t == mark + d;
    if mark == [] {
      assert d == t;
    } else {
      assert d[0] == t[2];
    }
  }

  lemma {:induction false} LeadingSpaces(s: seq<char>) returns (spaces: seq<char>, u: seq<char>)
    ensures s == spaces + u && (u == [] || !IsSpace(u[0]))
    ensures forall k :: 0 <= k < |spaces| ==> IsSpace(spaces[k])
  {
    if s == [] || !IsSpace(s[0]) {
      spaces, u := [], s;
    } else {
      spaces, u := LeadingSpaces(s[1..]);
      spaces := [s[0]] + spaces;
    }
  }
}
