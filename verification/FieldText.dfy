/**
  Lines as fscanf sees them: fields separated by white space, some of them numbers.
 */
module FieldText {
  import opened CType
  import opened Decimals

  /** t without the spaces it starts with. */
  function AfterSpaces(t: seq<char>): (r: seq<char>)
    ensures |r| <= |t|
    ensures r != [] ==> !IsSpace(r[0])
  {
    if t != [] && IsSpace(t[0]) then AfterSpaces(t[1..]) else t
  }

  /** The number of non-space characters t starts with. */
  function TokenLength(t: seq<char>): (n: nat)
    ensures n <= |t| && (t != [] && !IsSpace(t[0]) ==> n > 0)
  {
    if t != [] && !IsSpace(t[0]) then 1 + TokenLength(t[1..]) else 0
  }

  /** t without the first of its whitespace-separated fields. */
  function AfterField(t: seq<char>): (r: seq<char>)
    ensures |r| <= |t|
  {
    var u := AfterSpaces(t);
    u[TokenLength(u)..]
  }

  lemma {:induction false} AfterSpacesIsSuffix(t: seq<char>)
    ensures AfterSpaces(t) == t[|t| - |AfterSpaces(t)|..]
  {
    if t != [] && IsSpace(t[0]) { AfterSpacesIsSuffix(t[1..]); }
  }

  lemma AfterFieldIsSuffix(t: seq<char>)
    ensures AfterField(t) == t[|t| - |AfterField(t)|..]
  {
    AfterSpacesIsSuffix(t);
  }

  /** The whitespace-separated fields of a line. */
  ghost function Fields(line: seq<char>): seq<seq<char>>
    decreases |line|
  {
    var u := AfterSpaces(line);
    if u == [] then [] else [u[..TokenLength(u)]] + Fields(AfterField(line))
  }

  // ----- lines as fields and gaps -----

  ghost predicate AllSpaces(s: seq<char>) {
    forall k :: 0 <= k < |s| ==> IsSpace(s[k])
  }

  ghost predicate IsField(f: seq<char>) {
    f != [] && forall k :: 0 <= k < |f| ==> !IsSpace(f[k])
  }

  /** Each field behind its gap, and what follows the last one. */
  ghost function Spaced(gaps: seq<seq<char>>, fs: seq<seq<char>>, trail: seq<char>): seq<char>
    requires |gaps| == |fs|
  {
    if fs == [] then trail else gaps[0] + (fs[0] + Spaced(gaps[1..], fs[1..], trail))
  }

  /** Only the first gap may be empty. */
  ghost predicate IsSpacing(gaps: seq<seq<char>>, fs: seq<seq<char>>, trail: seq<char>) {
    && |gaps| == |fs| && AllSpaces(trail)
    && (forall k :: 0 <= k < |gaps| ==> AllSpaces(gaps[k]) && (k > 0 ==> gaps[k] != []))
    && (forall k :: 0 <= k < |fs| ==> IsField(fs[k]))
  }

  /** However fields are spaced, these are the fields of the line ... */
  lemma {:induction false} FieldsOfSpaced(gaps: seq<seq<char>>, fs: seq<seq<char>>, trail: seq<char>)
    requires IsSpacing(gaps, fs, trail)
    ensures Fields(Spaced(gaps, fs, trail)) == fs
    decreases |fs|
  {
    if fs == [] {
      GapSkipped(trail, []);
      assert trail + [] == trail;
    } else {
      var rest := Spaced(gaps[1..], fs[1..], trail);
      RestStartsWithSpace(gaps[1..], fs[1..], trail);
      GapSkipped(gaps[0], fs[0] + rest);
      FieldTaken(fs[0], rest);
      FieldsOfSpaced(gaps[1..], fs[1..], trail);
    }
  }

  lemma RestStartsWithSpace(gaps: seq<seq<char>>, fs: seq<seq<char>>, trail: seq<char>)
    requires |gaps| == |fs| && AllSpaces(trail)
    requires gaps != [] ==> AllSpaces(gaps[0]) && gaps[0] != []
    ensures var rest := Spaced(gaps, fs, trail); rest == [] || IsSpace(rest[0])
  {
    if fs != [] {
      assert Spaced(gaps, fs, trail)[0] == gaps[0][0];
    }
  }

  lemma {:induction false} GapSkipped(gap: seq<char>, t: seq<char>)
    requires AllSpaces(gap) && (t == [] || !IsSpace(t[0]))
    ensures AfterSpaces(gap + t) == t
    decreases |gap|
  {
    if gap == [] {
      assert gap + t == t;
    } else {
      assert (gap + t)[1..] == gap[1..] + t;
      GapSkipped(gap[1..], t);
    }
  }

  lemma {:induction false} FieldTaken(f: seq<char>, t: seq<char>)
    requires (forall k :: 0 <= k < |f| ==> !IsSpace(f[k])) && (t == [] || IsSpace(t[0]))
    ensures TokenLength(f + t) == |f|
    ensures (f + t)[..|f|] == f && (f + t)[|f|..] == t
    decreases |f|
  {
    if f == [] {
      assert f + t == t;
    } else {
      assert (f + t)[1..] == f[1..] + t;
      FieldTaken(f[1..], t);
    }
  }

  /** ... and every line is its fields with some spacing. */
  lemma {:induction false} EveryLineIsSpaced(line: seq<char>) returns (gaps: seq<seq<char>>, trail: seq<char>)
    ensures IsSpacing(gaps, Fields(line), trail) && Spaced(gaps, Fields(line), trail) == line
    decreases |line|
  {
    var gap, u := LeadingGap(line);
    if u == [] {
      gaps, trail := [], line;
      assert line == gap;
    } else {
      var n := TokenLength(u);
      TokenIsField(u);
      var more;
      more, trail := EveryLineIsSpaced(u[n..]);
      FieldsOf(line, u, n);
      GapsAdded(gap, u[..n], u[n..], more, Fields(u[n..]), trail);
      gaps := [gap] + more;
    }
  }

  lemma FieldsOf(line: seq<char>, u: seq<char>, n: nat)
    requires u == AfterSpaces(line) != [] && n == TokenLength(u)
    ensures Fields(line) == [u[..n]] + Fields(u[n..]) && u == u[..n] + u[n..]
  {
  }

  lemma {:induction false} LeadingGap(t: seq<char>) returns (gap: seq<char>, u: seq<char>)
    ensures t == gap + u && AllSpaces(gap) && u == AfterSpaces(t)
  {
    if t == [] || !IsSpace(t[0]) {
      gap, u := [], t;
    } else {
      gap, u := LeadingGap(t[1..]);
      gap := [t[0]] + gap;
    }
  }

  lemma {:induction false} TokenIsField(u: seq<char>)
    ensures forall k :: 0 <= k < TokenLength(u) ==> !IsSpace(u[k])
    ensures TokenLength(u) < |u| ==> IsSpace(u[TokenLength(u)])
  {
    if u != [] && !IsSpace(u[0]) { TokenIsField(u[1..]); }
  }

  lemma GapsAdded(gap: seq<char>, f: seq<char>, rest: seq<char>, gaps: seq<seq<char>>, fs: seq<seq<char>>,
                  trail: seq<char>)
    requires AllSpaces(gap) && IsField(f) && (rest == [] || IsSpace(rest[0]))
    requires IsSpacing(gaps, fs, trail) && Spaced(gaps, fs, trail) == rest
    ensures IsSpacing([gap] + gaps, [f] + fs, trail)
    ensures Spaced([gap] + gaps, [f] + fs, trail) == gap + (f + rest)
  {
    if gaps != [] && gaps[0] == [] {
      assert false;
    }
  }

  // ----- fields inside a file -----

  ghost function AfterFields(t: seq<char>, c: nat): seq<char>
    decreases c
  {
    if c == 0 then t else AfterField(AfterFields(t, c - 1))
  }

  lemma {:induction false} SpacesInLine(v: seq<char>, w: seq<char>)
    requires AfterSpaces(v) != []
    ensures AfterSpaces(v + w) == AfterSpaces(v) + w
  {
    if IsSpace(v[0]) {
      assert (v + w)[1..] == v[1..] + w;
      SpacesInLine(v[1..], w);
    }
  }

  lemma {:induction false} TokenInLine(u: seq<char>, w: seq<char>)
    requires w != [] && IsSpace(w[0])
    ensures TokenLength(u + w) == TokenLength(u)
  {
    if u == [] {
      assert u + w == w;
    } else {
      assert (u + w)[1..] == u[1..] + w;
      TokenInLine(u[1..], w);
    }
  }

  lemma FieldInLine(v: seq<char>, w: seq<char>)
    requires AfterSpaces(v) != [] && w != [] && IsSpace(w[0])
    ensures AfterField(v + w) == AfterField(v) + w
  {
    SpacesInLine(v, w);
    TokenInLine(AfterSpaces(v), w);
  }

  lemma FieldsSplit(t: seq<char>)
    requires Fields(t) != []
    ensures AfterSpaces(t) != [] && Fields(AfterField(t)) == Fields(t)[1..]
  {
  }

  lemma {:induction false} FieldsAfter(line: seq<char>, c: nat)
    requires c <= |Fields(line)|
    ensures Fields(AfterFields(line, c)) == Fields(line)[c..]
    decreases c
  {
    if c > 0 {
      FieldsAfter(line, c - 1);
      FieldsSplit(AfterFields(line, c - 1));
      assert Fields(line)[c - 1..][1..] == Fields(line)[c..];
    }
  }

  /** A space ends every number. */
  lemma {:induction false} NumberInToken(r: Reading, f: seq<char>, w: seq<char>)
    requires w != [] && IsSpace(w[0])
    ensures NumberLength(r, f + w) == NumberLength(r, f) && ReadingAfter(r, f + w) == ReadingAfter(r, f)
    decreases |f|
  {
    if f == [] {
      assert f + w == w;
    } else if ReadOn(r, f[0]) != Over {
      assert (f + w)[1..] == f[1..] + w;
      NumberInToken(ReadOn(r, f[0]), f[1..], w);
    }
  }

  lemma NumberOfPrefix(f: seq<char>, w: seq<char>)
    requires w != [] && IsSpace(w[0])
    ensures StartsWithNumber(f + w) == StartsWithNumber(f) && NumberText(f + w) == NumberText(f)
  {
    NumberInToken(Start, f, w);
    assert (f + w)[..NumberLength(Start, f)] == f[..NumberLength(Start, f)];
  }

  lemma NumberOfToken(u: seq<char>, w: seq<char>)
    requires w != [] && IsSpace(w[0])
    ensures var f := u[..TokenLength(u)];
            && StartsWithNumber(u + w) == StartsWithNumber(f) && NumberText(u + w) == NumberText(f)
            && |NumberText(f)| <= |u| && (u + w)[|NumberText(f)|..] == u[|NumberText(f)|..] + w
  {
    var f, rest := u[..TokenLength(u)], u[TokenLength(u)..] + w;
    TokenIsField(u);
    NumberOfPrefix(f, rest);
    SplitBoth(u, w, TokenLength(u));
    SplitBoth(u, w, |NumberText(f)|);
  }

  lemma SplitBoth(u: seq<char>, w: seq<char>, k: nat)
    requires k <= |u|
    ensures u + w == u[..k] + (u[k..] + w) && (u + w)[k..] == u[k..] + w
  {
  }

  /** Scanning a number inside a line sees nothing but the next field. */
  lemma NumberOfField(v: seq<char>, w: seq<char>)
    requires Fields(v) != [] && w != [] && IsSpace(w[0])
    ensures var t := AfterSpaces(v + w);
            && StartsWithNumber(t) == StartsWithNumber(Fields(v)[0]) && NumberText(t) == NumberText(Fields(v)[0])
            && |NumberText(t)| <= |AfterSpaces(v)|
            && t[|NumberText(t)|..] == AfterSpaces(v)[|NumberText(t)|..] + w
  {
    SpacesInLine(v, w);
    NumberOfToken(AfterSpaces(v), w);
  }

  /** The number scanned from a text on is that of its first field. */
  lemma NumberOfFirstField(t: seq<char>)
    requires Fields(t) != []
    ensures var u := AfterSpaces(t);
      StartsWithNumber(u) == StartsWithNumber(Fields(t)[0]) && NumberText(u) == NumberText(Fields(t)[0])
  {
    var u := AfterSpaces(t);
    var n := TokenLength(u);
    FieldsOf(t, u, n);
    TokenIsField(u);
    if n < |u| {
      NumberOfPrefix(u[..n], u[n..]);
    } else {
      assert u[..n] == u;
    }
  }

  lemma {:induction false} NoFieldsAfter(line: seq<char>, c: nat)
    requires |Fields(line)| <= c
    ensures Fields(AfterFields(line, c)) == []
    decreases c
  {
    if c == |Fields(line)| {
      FieldsAfter(line, c);
    } else {
      NoFieldsAfter(line, c - 1);
    }
  }
}
