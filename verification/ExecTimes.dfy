/**
  get_exec_times of bin/rtspin.c: count the jobs in a first pass over a file, fill an array with
  one column of it in a second pass.

  fscanf and ungetc follow sections 7.21.6.2 and 7.21.7.10 of ISO/IEC 9899:2011. A stored time is
  the text of its number.
 */
module ExecTimes {
  import opened Decimals
  import opened CType
  import opened FieldText

  const EOF := -1

  /** A FILE opened for reading. */
  class Stream {
    const content: seq<char>
    var pos: nat
    var eof: bool  // feof

    constructor (content: seq<char>)
      ensures this.content == content && pos == 0 && !eof
    {
      this.content := content;
      pos, eof := 0, false;
    }

    ghost predicate Valid()
      reads this
    {
      pos <= |content|
    }

    /** What has not been read yet. */
    ghost function Rest(): seq<char>
      requires Valid()
      reads this
    {
      content[pos..]
    }

    method GetC() returns (ch: int)
      requires Valid()
      modifies this
      ensures Valid()
      ensures old(Rest()) == [] ==> ch == EOF && Rest() == [] && eof
      ensures old(Rest()) != [] ==> ch == old(Rest())[0] as int && Rest() == old(Rest())[1..] && eof == old(eof)
      ensures pos == if ch == EOF then old(pos) else old(pos) + 1
    {
      if pos == |content| {
        eof := true;
        return EOF;
      }
      ch := content[pos] as int;
      pos := pos + 1;
    }

    /** Only the character read last is ever pushed back. Pushing back EOF does nothing. */
    method UngetC(ch: int)
      requires Valid() && (ch == EOF || (pos > 0 && content[pos - 1] as int == ch))
      modifies this
      ensures Valid()
      ensures ch == EOF ==> pos == old(pos) && eof == old(eof)
      ensures ch != EOF ==> pos == old(pos) - 1 && !eof
    {
      if ch != EOF {
        pos := pos - 1;
        eof := false;
      }
    }

    /** fscanf with "%*s,": a field is skipped. The comma never matches, for the field has taken
        everything up to the next space. */
    method ScanSkippedField()
      requires Valid()
      modifies this
      ensures Valid() && Rest() == AfterField(old(Rest()))
      ensures eof == (old(eof) || Rest() == [])
    {
      AfterFieldIsSuffix(content[pos..]);
      pos := |content| - |AfterField(content[pos..])|;
      eof := eof || pos == |content|;
    }

    /** fscanf with "%lf". */
    method ScanNumber() returns (matched: bool, text: seq<char>)
      requires Valid()
      modifies this
      ensures Valid()
      ensures var t := AfterSpaces(old(Rest()));
              && matched == StartsWithNumber(t) && text == NumberText(t) && Rest() == t[|text|..]
      ensures eof == (old(eof) || Rest() == [])
    {
      var t := AfterSpaces(content[pos..]);
      AfterSpacesIsSuffix(content[pos..]);
      matched, text := StartsWithNumber(t), NumberText(t);
      pos := |content| - |t| + |text|;
      eof := eof || pos == |content|;
    }

    method Rewind()
      modifies this
      ensures Valid() && Rest() == content && !eof
    {
      pos, eof := 0, false;
    }
  }

  // ----- lines -----

  /** t from behind its first newline on. */
  ghost function AfterLine(t: seq<char>): (r: seq<char>)
    ensures |r| <= |t| && (t != [] ==> |r| < |t|)
  {
    if t == [] then [] else if t[0] == '\n' then t[1..] else AfterLine(t[1..])
  }

  /** t without the comment lines it starts with. */
  ghost function AfterComments(t: seq<char>): seq<char>
    decreases |t|
  {
    if t != [] && t[0] == '#' then AfterComments(AfterLine(t[1..])) else t
  }

  /** Returns the character that made it stop, newline or EOF. */
  method SkipToNextLine(stream: Stream) returns (ch: int)
    requires stream.Valid()
    modifies stream
    ensures stream.Valid() && stream.Rest() == AfterLine(old(stream.Rest()))
    ensures ch == if '\n' in old(stream.Rest()) then '\n' as int else EOF
    ensures stream.eof == (old(stream.eof) || ch == EOF)
  {
    ghost var t := stream.Rest();
    ch := stream.GetC();
    while ch != EOF && ch != '\n' as int
      invariant stream.Valid()
      invariant stream.eof == (old(stream.eof) || ch == EOF)
      invariant ch == EOF ==> '\n' !in t && stream.Rest() == AfterLine(t) == []
      invariant ch == '\n' as int ==> '\n' in t && stream.Rest() == AfterLine(t)
      invariant ch != EOF && ch != '\n' as int ==>
        AfterLine(stream.Rest()) == AfterLine(t) && ('\n' in t <==> '\n' in stream.Rest())
      decreases ch != EOF, |stream.Rest()|
    {
      ghost var u := stream.Rest();
      ch := stream.GetC();
      if u != [] { assert u == [u[0]] + u[1..]; }
    }
  }

  method SkipComments(stream: Stream)
    requires stream.Valid()
    modifies stream
    ensures stream.Valid() && stream.Rest() == AfterComments(old(stream.Rest()))
    ensures stream.eof <==> stream.Rest() == []
  {
    ghost var u := stream.Rest();
    var ch := stream.GetC();
    while ch == '#' as int
      invariant stream.Valid() && AfterComments(u) == AfterComments(old(stream.Rest()))
      invariant if u == [] then ch == EOF && stream.Rest() == [] && stream.eof
                else stream.pos > 0 && u == stream.content[stream.pos - 1..] && ch == u[0] as int
      decreases |u|
    {
      var _ := SkipToNextLine(stream);
      u := stream.Rest();
      ch := stream.GetC();
    }
    stream.UngetC(ch);
  }

  // ----- files as lines -----

  /** The lines, each with its newline. */
  ghost function Text(lines: seq<seq<char>>): seq<char> {
    if lines == [] then [] else lines[0] + ['\n'] + Text(lines[1..])
  }

  ghost predicate AreLines(lines: seq<seq<char>>) {
    forall k :: 0 <= k < |lines| ==> '\n' !in lines[k]
  }

  predicate IsComment(line: seq<char>) {
    line != [] && line[0] == '#'
  }

  /** The lines that are no comments, in order. */
  ghost function DataLines(lines: seq<seq<char>>): seq<seq<char>> {
    if lines == [] then [] else (if IsComment(lines[0]) then [] else [lines[0]]) + DataLines(lines[1..])
  }

  lemma DataLineIff(line: seq<char>)
    ensures DataLines([line]) == if line != [] && line[0] == '#' then [] else [line]
  {
    assert [line][1..] == [];
  }

  lemma {:induction false} DataLinesAppend(a: seq<seq<char>>, b: seq<seq<char>>)
    ensures DataLines(a + b) == DataLines(a) + DataLines(b)
    decreases |a|
  {
    if a == [] {
      assert a + b == b;
    } else {
      assert (a + b)[1..] == a[1..] + b;
      DataLinesAppend(a[1..], b);
    }
  }

  /** Every content is a number of complete lines and a last one without a newline. */
  lemma {:induction false} SplitLines(content: seq<char>) returns (lines: seq<seq<char>>, last: seq<char>)
    ensures content == Text(lines) + last && AreLines(lines) && '\n' !in last
  {
    if content == [] {
      lines, last := [], [];
    } else {
      lines, last := SplitLines(content[1..]);
      var c := content[0];
      assert content == [c] + content[1..];
      if c == '\n' {
        lines := [[]] + lines;
      } else if lines == [] {
        last := [c] + last;
      } else {
        lines := [[c] + lines[0]] + lines[1..];
      }
    }
  }

  lemma {:induction false} AfterLineOf(line: seq<char>, tail: seq<char>)
    requires '\n' !in line
    ensures AfterLine(line + ['\n'] + tail) == tail
  {
    var t := line + ['\n'] + tail;
    if line == [] {
      assert t[1..] == tail;
    } else {
      assert t[1..] == line[1..] + ['\n'] + tail;
      AfterLineOf(line[1..], tail);
    }
  }

  /** The lines from the first data line on. */
  ghost function FromData(lines: seq<seq<char>>): (r: seq<seq<char>>)
    ensures |r| <= |lines| && DataLines(r) == DataLines(lines)
    ensures r != [] ==> !IsComment(r[0])
  {
    if lines != [] && IsComment(lines[0]) then FromData(lines[1..]) else lines
  }

  lemma SkipCommentLine(line: seq<char>, tail: seq<char>)
    requires IsComment(line) && '\n' !in line
    ensures AfterComments(line + ['\n'] + tail) == AfterComments(tail)
  {
    var t := line + ['\n'] + tail;
    assert t[1..] == line[1..] + ['\n'] + tail;
    AfterLineOf(line[1..], tail);
  }

  lemma TextSplit(lines: seq<seq<char>>, last: seq<char>)
    requires lines != []
    ensures Text(lines) + last == lines[0] + ['\n'] + (Text(lines[1..]) + last)
  {
  }

  lemma {:induction false} AfterCommentsOfText(lines: seq<seq<char>>, last: seq<char>)
    requires AreLines(lines) && FromData(lines) != []
    ensures AfterComments(Text(lines) + last) == Text(FromData(lines)) + last
    ensures AreLines(FromData(lines))
    decreases |lines|
  {
    TextSplit(lines, last);
    if IsComment(lines[0]) {
      SkipCommentLine(lines[0], Text(lines[1..]) + last);
      AfterCommentsOfText(lines[1..], last);
    } else {
      assert (Text(lines) + last)[0] == if lines[0] == [] then '\n' else lines[0][0];
    }
  }

  lemma {:induction false} OnlyComments(lines: seq<seq<char>>, last: seq<char>)
    requires AreLines(lines) && FromData(lines) == [] && '\n' !in last
    ensures '\n' !in AfterComments(Text(lines) + last)
    decreases |lines|
  {
    if lines == [] {
      assert Text(lines) + last == last;
      if last != [] { NoLine(last[1..]); }
    } else {
      TextSplit(lines, last);
      SkipCommentLine(lines[0], Text(lines[1..]) + last);
      OnlyComments(lines[1..], last);
    }
  }

  lemma {:induction false} NoLine(t: seq<char>)
    requires '\n' !in t
    ensures AfterLine(t) == []
  {
    if t != [] { NoLine(t[1..]); }
  }

  // ----- pass one -----

  /** Behind the comments comes the first data line, or there is no further newline. */
  lemma NextJob(lines: seq<seq<char>>, last: seq<char>)
    requires AreLines(lines) && '\n' !in last
    ensures var data, rest := FromData(lines), AfterComments(Text(lines) + last);
            if data == [] then '\n' !in rest
            else '\n' in rest && AfterLine(rest) == Text(data[1..]) + last && AreLines(data[1..])
  {
    var data := FromData(lines);
    if data == [] {
      OnlyComments(lines, last);
    } else {
      AfterCommentsOfText(lines, last);
      TextSplit(data, last);
      AfterLineOf(data[0], Text(data[1..]) + last);
      assert (data[0] + ['\n'] + (Text(data[1..]) + last))[|data[0]|] == '\n';
    }
  }

  /** The do-while loop that counts. The count is the number of complete lines that are no
      comments, whatever the file. */
  method CountJobs(stream: Stream, ghost lines: seq<seq<char>>, ghost last: seq<char>) returns (numJobs: nat)
    requires stream.Valid() && stream.Rest() == Text(lines) + last && AreLines(lines) && '\n' !in last
    modifies stream
    ensures numJobs == |DataLines(lines)|
  {
    numJobs := 0;
    ghost var todo := lines;
    var ch := 0;
    while ch != EOF
      invariant stream.Valid() && AreLines(todo)
      invariant if ch == EOF then numJobs == |DataLines(lines)|
                else stream.Rest() == Text(todo) + last && numJobs + |DataLines(todo)| == |DataLines(lines)|
      decreases ch != EOF, |todo|
    {
      SkipComments(stream);
      NextJob(todo, last);
      ch := SkipToNextLine(stream);
      if ch != EOF {
        numJobs := numJobs + 1;
        todo := FromData(todo)[1..];
      }
    }
  }

  // ----- pass two -----

  /** Columns count from 1; anything below means the first. */
  function FieldIndex(column: int): (c: nat)
    ensures column >= 1 ==> c == column - 1
    ensures column < 1 ==> c == 0
  {
    if column < 1 then 0 else column - 1
  }

  /** The loop that discards columns. */
  method SkipColumns(stream: Stream, column: int)
    requires stream.Valid() && (stream.eof ==> stream.Rest() == [])
    modifies stream
    ensures stream.Valid() && (stream.eof ==> stream.Rest() == [])
    ensures stream.Rest() == AfterFields(old(stream.Rest()), if column < 1 then 0 else column - 1)
  {
    var curCol := 1;
    while curCol < column
      invariant stream.Valid() && (stream.eof ==> stream.Rest() == [])
      invariant curCol >= 1 && curCol - 1 <= FieldIndex(column)
      invariant stream.Rest() == AfterFields(old(stream.Rest()), curCol - 1)
    {
      stream.ScanSkippedField();
      curCol := curCol + 1;
    }
  }

  /** Where the number for the next job is looked for. */
  ghost function AtTime(rest: seq<char>, column: int): seq<char> {
    AfterSpaces(AfterFields(AfterComments(rest), FieldIndex(column)))
  }

  /** What the scan of one row finds and what it leaves. */
  datatype Row = Row(matched: bool, text: seq<char>, rest: seq<char>, eof: bool)

  /** The number in the column, if there is one, and then the rest of its line. */
  ghost function ScanRow(rest: seq<char>, column: int): Row {
    var t := AtTime(rest, column);
    var left := t[|NumberText(t)|..];
    Row(StartsWithNumber(t), NumberText(t), AfterLine(left), '\n' !in left)
  }

  ghost predicate Scans(scan: seq<char> -> Row, column: int) {
    forall rest {:trigger AtTime(rest, column)} :: scan(rest) == ScanRow(rest, column)
  }

  ghost function Scan(column: int): (scan: seq<char> -> Row)
    ensures Scans(scan, column)
  {
    rest => ScanRow(rest, column)
  }

  /** What is done for one job, whatever the file. */
  method ReadRow(stream: Stream, column: int, ghost scan: seq<char> -> Row) returns (matched: bool, text: seq<char>)
    requires stream.Valid() && Scans(scan, column)
    modifies stream
    ensures stream.Valid()
    ensures var row := scan(old(stream.Rest()));
      && matched == row.matched && text == row.text
      && (matched ==> stream.Rest() == row.rest && stream.eof == row.eof)
  {
    assert scan(stream.Rest()) == ScanRow(stream.Rest(), column) by { var _ := AtTime(stream.Rest(), column); }
    SkipComments(stream);
    SkipColumns(stream, column);
    matched, text := stream.ScanNumber();
    if matched {
      var _ := SkipToNextLine(stream);
    }
  }

  datatype Outcome = Done | InvalidTime | AssertionFailed

  /** How the second pass ends, and the times it has stored by then. */
  datatype Pass = Pass(outcome: Outcome, times: seq<seq<char>>)

  /** The second pass over the rest of any file, with n jobs to go and rows scanned by `scan`. It
      fails at the first text that is no number, and when the file ends before the last job. */
  ghost function PassOf(scan: seq<char> -> Row, rest: seq<char>, n: nat): (p: Pass)
    ensures |p.times| <= n && (p.outcome == Done <==> |p.times| == n)
    decreases n
  {
    if n == 0 then Pass(Done, [])
    else
      var row := scan(rest);
      if !row.matched then Pass(InvalidTime, [])
      else if n > 1 && row.eof then Pass(AssertionFailed, [row.text])
      else Behind([row.text], PassOf(scan, row.rest, n - 1))
  }

  ghost function Behind(done: seq<seq<char>>, p: Pass): Pass {
    Pass(p.outcome, done + p.times)
  }

  ghost function SecondPass(rest: seq<char>, column: int, n: nat): Pass {
    PassOf(Scan(column), rest, n)
  }

  /** A pass that has stored the times `done` and is at `rest`, with n jobs to go. */
  ghost predicate PassAt(whole: Pass, done: seq<seq<char>>, scan: seq<char> -> Row,
                         rest: seq<char>, eof: bool, n: nat)
  {
    whole == if n > 0 && eof then Pass(AssertionFailed, done) else Behind(done, PassOf(scan, rest, n))
  }

  lemma PassOn(whole: Pass, done: seq<seq<char>>, scan: seq<char> -> Row, rest: seq<char>, n: nat)
    requires n > 0 && PassAt(whole, done, scan, rest, false, n)
    ensures var row := scan(rest);
      if row.matched then PassAt(whole, done + [row.text], scan, row.rest, row.eof, n - 1)
      else whole == Pass(InvalidTime, done)
  {
    var row := scan(rest);
    var times := PassOf(scan, row.rest, n - 1).times;
    assert done + ([row.text] + times) == done + [row.text] + times;
  }

  /** Both passes over the open file: as many slots as data lines, and the times of SecondPass in
      the first of them. */
  method GetExecTimes(stream: Stream, column: int, ghost lines: seq<seq<char>>, ghost last: seq<char>)
    returns (outcome: Outcome, numJobs: nat, execTimes: array<seq<char>>)
    requires stream.content == Text(lines) + last && AreLines(lines) && '\n' !in last
    modifies stream
    ensures numJobs == execTimes.Length == |DataLines(lines)|
    ensures var p := SecondPass(stream.content, column, numJobs);
      outcome == p.outcome && execTimes[..|p.times|] == p.times
    ensures AllHaveTimes(DataLines(lines), column) ==>
      && outcome == Done
      && forall k :: 0 <= k < numJobs ==>
           execTimes[k] == NumberText(Fields(DataLines(lines)[k])[if column < 1 then 0 else column - 1])
  {
    stream.Rewind();
    numJobs := CountJobs(stream, lines, last);
    stream.Rewind();
    execTimes := new seq<char>[numJobs](_ => []);
    outcome := FillTimes(stream, column, execTimes);
    if AllHaveTimes(DataLines(lines), column) {
      FirstTimes(lines, last, column, numJobs);
      TimesStored(execTimes[..], SecondPass(stream.content, column, numJobs), DataLines(lines), column);
    }
  }

  /** The second pass; numJobs is the length of the array. */
  method FillTimes(stream: Stream, column: int, execTimes: array<seq<char>>) returns (outcome: Outcome)
    requires stream.Valid() && !stream.eof
    modifies stream, execTimes
    ensures var p := SecondPass(old(stream.Rest()), column, execTimes.Length);
      outcome == p.outcome && execTimes[..|p.times|] == p.times
  {
    outcome := FillRows(stream, column, execTimes, Scan(column));
  }

  method FillRows(stream: Stream, column: int, execTimes: array<seq<char>>, ghost scan: seq<char> -> Row)
    returns (outcome: Outcome)
    requires stream.Valid() && !stream.eof && Scans(scan, column)
    modifies stream, execTimes
    ensures var p := PassOf(scan, old(stream.Rest()), execTimes.Length);
      outcome == p.outcome && execTimes[..|p.times|] == p.times
  {
    ghost var whole := PassOf(scan, stream.Rest(), execTimes.Length);
    var curJob := 0;
    PassBegins(whole, execTimes[..0]);
    while curJob < execTimes.Length && !stream.eof
      invariant stream.Valid() && curJob <= execTimes.Length
      invariant PassAt(whole, execTimes[..curJob], scan, stream.Rest(), stream.eof, execTimes.Length - curJob)
      decreases execTimes.Length - curJob
    {
      var matched := FillNext(stream, column, execTimes, curJob, whole, scan);
      if !matched {
        return InvalidTime;
      }
      curJob := curJob + 1;
    }
    PassEnds(whole, execTimes[..curJob], scan, stream.Rest(), stream.eof, execTimes.Length - curJob);
    outcome := if curJob == execTimes.Length then Done else AssertionFailed;
  }

  /** One iteration of the second pass. */
  method FillNext(stream: Stream, column: int, execTimes: array<seq<char>>, curJob: nat,
                  ghost whole: Pass, ghost scan: seq<char> -> Row)
    returns (matched: bool)
    requires stream.Valid() && !stream.eof && Scans(scan, column) && curJob < execTimes.Length
    requires PassAt(whole, execTimes[..curJob], scan, stream.Rest(), false, execTimes.Length - curJob)
    modifies stream, execTimes
    ensures stream.Valid()
    ensures if matched
            then PassAt(whole, execTimes[..curJob + 1], scan, stream.Rest(), stream.eof, execTimes.Length - curJob - 1)
            else whole == Pass(InvalidTime, execTimes[..curJob])
  {
    ghost var done := execTimes[..curJob];
    PassOn(whole, done, scan, stream.Rest(), execTimes.Length - curJob);
    var text;
    matched, text := ReadRow(stream, column, scan);
    if matched {
      execTimes[curJob] := text;
      assert execTimes[..curJob + 1] == done + [text];
    }
  }

  lemma PassBegins(p: Pass, none: seq<seq<char>>)
    requires none == []
    ensures p == Behind(none, p)
  {
  }

  lemma PassEnds(whole: Pass, done: seq<seq<char>>, scan: seq<char> -> Row, rest: seq<char>, eof: bool, n: nat)
    requires PassAt(whole, done, scan, rest, eof, n) && (n == 0 || eof)
    ensures whole == Pass(if n == 0 then Done else AssertionFailed, done)
  {
  }

  /** In any file: the ends of lines are spaces like others, so the number is looked for in that field
      of all that is left. A line that is too short borrows from the next ones. */
  lemma RowIgnoresLineEnds(rest: seq<char>, column: int)
    ensures var row, fields, c := ScanRow(rest, column), Fields(AfterComments(rest)), FieldIndex(column);
      if c < |fields| then row.matched == StartsWithNumber(fields[c]) && row.text == NumberText(fields[c])
      else !row.matched
  {
    var r, c := AfterComments(rest), FieldIndex(column);
    if c < |Fields(r)| {
      FieldsAfter(r, c);
      NumberOfFirstField(AfterFields(r, c));
    } else {
      NoFieldsAfter(r, c);
      assert AtTime(rest, column) == [];
    }
  }

  // ----- the second pass over lines that have their columns -----

  ghost predicate HasColumn(line: seq<char>, column: int) {
    FieldIndex(column) < |Fields(line)|
  }

  ghost predicate HasTime(line: seq<char>, column: int) {
    HasColumn(line, column) && StartsWithNumber(Fields(line)[FieldIndex(column)])
  }

  ghost function TimeOf(line: seq<char>, column: int): seq<char>
    requires HasTime(line, column)
  {
    NumberText(Fields(line)[FieldIndex(column)])
  }

  ghost predicate AllHaveTimes(data: seq<seq<char>>, column: int) {
    forall k :: 0 <= k < |data| ==> HasTime(data[k], column)
  }

  ghost predicate AllHaveColumn(data: seq<seq<char>>, column: int) {
    forall k :: 0 <= k < |data| ==> HasColumn(data[k], column)
  }

  /** The scan of a line that has the column stays in the line. */
  lemma TimeInLine(line: seq<char>, tail: seq<char>, column: int)
    requires '\n' !in line && HasColumn(line, column)
    ensures var t := AfterSpaces(AfterFields(line + (['\n'] + tail), FieldIndex(column)));
      && (StartsWithNumber(t) <==> HasTime(line, column))
      && NumberText(t) == NumberText(Fields(line)[FieldIndex(column)])
      && '\n' in t[|NumberText(t)|..] && AfterLine(t[|NumberText(t)|..]) == tail
  {
    var c, w := FieldIndex(column), ['\n'] + tail;
    var v := AfterFields(line, c);
    FieldsInLine(line, c, w);
    FieldsAfter(line, c);
    NumberOfField(v, w);
    AfterFieldsInLine(line, c);
    AfterSpacesIsSuffix(v);
    var left := AfterSpaces(v)[|NumberText(Fields(v)[0])|..];
    Regroup(left, tail);
    AfterLineOf(left, tail);
    assert (left + w)[|left|] == '\n';
  }

  lemma {:induction false} FieldsInLine(line: seq<char>, c: nat, w: seq<char>)
    requires c < |Fields(line)| && w != [] && IsSpace(w[0])
    ensures AfterFields(line + w, c) == AfterFields(line, c) + w
    decreases c
  {
    if c > 0 {
      FieldsInLine(line, c - 1, w);
      FieldsAfter(line, c - 1);
      FieldsSplit(AfterFields(line, c - 1));
      FieldInLine(AfterFields(line, c - 1), w);
    }
  }

  lemma {:induction false} AfterFieldsInLine(line: seq<char>, c: nat)
    requires '\n' !in line
    ensures '\n' !in AfterFields(line, c)
    decreases c
  {
    if c > 0 {
      AfterFieldsInLine(line, c - 1);
      AfterFieldKeeps(AfterFields(line, c - 1));
    }
  }

  lemma AfterFieldKeeps(t: seq<char>)
    requires '\n' !in t
    ensures '\n' !in AfterField(t)
  {
    AfterFieldIsSuffix(t);
  }

  ghost predicate RowAt(rest: seq<char>, line: seq<char>, tail: seq<char>) {
    '\n' !in line && AfterComments(rest) == line + (['\n'] + tail)
  }

  /** What a data line has in the column. */
  datatype Found = Found(there: bool, number: bool, text: seq<char>)

  ghost function Finds(line: seq<char>, column: int): Found {
    if HasTime(line, column) then Found(true, true, TimeOf(line, column)) else Found(HasColumn(line, column), false, [])
  }

  ghost function FoundIn(data: seq<seq<char>>, column: int): (found: seq<Found>)
    ensures |found| == |data| && forall k :: 0 <= k < |data| ==> found[k] == Finds(data[k], column)
  {
    seq(|data|, k requires 0 <= k < |data| => Finds(data[k], column))
  }

  /** The scan of a line that has the column finds that and leaves the next lines. */
  ghost predicate ScansAs(row: Row, found: Found, tail: seq<char>) {
    found.there ==> if found.number then row == Row(true, found.text, tail, false) else !row.matched
  }

  lemma RowScan(rest: seq<char>, line: seq<char>, tail: seq<char>, column: int)
    requires RowAt(rest, line, tail)
    ensures ScansAs(Scan(column)(rest), Finds(line, column), tail)
  {
    var _ := AtTime(rest, column);
    if HasColumn(line, column) {
      TimeInLine(line, tail, column);
    }
  }

  /** What is left of a file at each of its data lines and at the end. */
  ghost predicate RestsAt(rests: seq<seq<char>>, found: seq<Found>, scan: seq<char> -> Row) {
    && |rests| == |found| + 1
    && forall i {:trigger found[i]} :: 0 <= i < |found| ==> ScansAs(scan(rests[i]), found[i], rests[i + 1])
  }

  lemma {:induction false} RestsOf(lines: seq<seq<char>>, last: seq<char>, column: int) returns (rests: seq<seq<char>>)
    requires AreLines(lines)
    ensures RestsAt(rests, FoundIn(DataLines(lines), column), Scan(column)) && rests[0] == Text(lines) + last
    decreases |DataLines(lines)|
  {
    var data := DataLines(lines);
    if data == [] {
      rests := [Text(lines) + last];
    } else {
      NextRow(lines, last);
      var more := RestsOf(FromData(lines)[1..], last, column);
      rests := RowBefore(Text(lines) + last, data[0], more, data[1..], column);
      assert data == [data[0]] + data[1..];
    }
  }

  lemma RowBefore(rest: seq<char>, line: seq<char>, more: seq<seq<char>>, data: seq<seq<char>>, column: int)
    returns (rests: seq<seq<char>>)
    requires RestsAt(more, FoundIn(data, column), Scan(column)) && RowAt(rest, line, more[0])
    ensures RestsAt(rests, FoundIn([line] + data, column), Scan(column)) && rests[0] == rest
  {
    RowScan(rest, line, more[0], column);
    rests := RestsBefore(rest, Finds(line, column), more, FoundIn(data, column), Scan(column));
    FoundCons(line, data, column);
  }

  lemma FoundCons(line: seq<char>, data: seq<seq<char>>, column: int)
    ensures FoundIn([line] + data, column) == [Finds(line, column)] + FoundIn(data, column)
  {
  }

  lemma RestsBefore(rest: seq<char>, first: Found, more: seq<seq<char>>, found: seq<Found>, scan: seq<char> -> Row)
    returns (rests: seq<seq<char>>)
    requires RestsAt(more, found, scan) && ScansAs(scan(rest), first, more[0])
    ensures RestsAt(rests, [first] + found, scan) && rests[0] == rest
  {
    rests := [rest] + more;
    forall i | 0 <= i < |found| + 1 ensures ScansAs(scan(rests[i]), ([first] + found)[i], rests[i + 1]) {
      if i > 0 { assert ScansAs(scan(more[i - 1]), found[i - 1], more[i]); }
    }
  }

  ghost predicate AreTimes(times: seq<seq<char>>, found: seq<Found>) {
    |times| <= |found| && forall j :: 0 <= j < |times| ==> found[j].number && times[j] == found[j].text
  }

  ghost predicate NumbersTo(found: seq<Found>, k: nat) {
    k <= |found| && forall j :: 0 <= j < k ==> found[j].there && found[j].number
  }

  /** As long as the data lines have a time in the column, these times are stored one by one. */
  lemma {:induction false} PassTo(whole: Pass, rests: seq<seq<char>>, found: seq<Found>, scan: seq<char> -> Row, k: nat)
    returns (done: seq<seq<char>>)
    requires RestsAt(rests, found, scan) && whole == PassOf(scan, rests[0], |found|) && NumbersTo(found, k)
    ensures |done| == k && AreTimes(done, found)
    ensures PassAt(whole, done, scan, rests[k], false, |found| - k)
    decreases k
  {
    if k == 0 {
      done := [];
      PassBegins(whole, done);
    } else {
      done := PassTo(whole, rests, found, scan, k - 1);
      assert ScansAs(scan(rests[k - 1]), found[k - 1], rests[k]);
      PassOn(whole, done, scan, rests[k - 1], |found| - k + 1);
      done := done + [found[k - 1].text];
    }
  }

  /** The pass stores the times of the first k data lines. If these are all, it is complete, and if
      line k has something else in the column, it fails there. */
  ghost predicate StoresFirst(p: Pass, found: seq<Found>, k: nat) {
    && k <= |found| && k <= |p.times| && AreTimes(p.times[..k], found)
    && (k == |found| ==> p == Pass(Done, p.times[..k]))
    && (k < |found| && found[k].there && !found[k].number ==> p == Pass(InvalidTime, p.times[..k]))
  }

  lemma FirstTimes(lines: seq<seq<char>>, last: seq<char>, column: int, k: nat)
    requires AreLines(lines) && NumbersTo(FoundIn(DataLines(lines), column), k)
    ensures var n, found := |DataLines(lines)|, FoundIn(DataLines(lines), column);
      StoresFirst(SecondPass(Text(lines) + last, column, n), found, k)
  {
    var rests := RestsOf(lines, last, column);
    var found := FoundIn(DataLines(lines), column);
    FirstRows(PassOf(Scan(column), rests[0], |found|), rests, found, Scan(column), k);
  }

  lemma FirstRows(p: Pass, rests: seq<seq<char>>, found: seq<Found>, scan: seq<char> -> Row, k: nat)
    requires RestsAt(rests, found, scan) && p == PassOf(scan, rests[0], |found|) && NumbersTo(found, k)
    ensures StoresFirst(p, found, k)
  {
    var done := PassTo(p, rests, found, scan, k);
    PassHasDone(p, done, scan, rests[k], |found| - k);
    if k < |found| {
      assert ScansAs(scan(rests[k]), found[k], rests[k + 1]);
      PassOn(p, done, scan, rests[k], |found| - k);
    }
  }

  lemma PassHasDone(p: Pass, done: seq<seq<char>>, scan: seq<char> -> Row, rest: seq<char>, n: nat)
    requires PassAt(p, done, scan, rest, false, n)
    ensures |done| <= |p.times| && p.times[..|done|] == done
    ensures n == 0 ==> p == Pass(Done, done)
  {
  }

  lemma TimesStored(times: seq<seq<char>>, p: Pass, data: seq<seq<char>>, column: int)
    requires |times| == |data| == |p.times| && times[..|times|] == p.times
    requires AreTimes(p.times[..|data|], FoundIn(data, column)) && AllHaveTimes(data, column)
    ensures forall k :: 0 <= k < |data| ==>
      FieldIndex(column) < |Fields(data[k])| && times[k] == NumberText(Fields(data[k])[FieldIndex(column)])
  {
    assert p.times[..|data|] == times;
    forall k | 0 <= k < |data| ensures HasTime(data[k], column) && times[k] == TimeOf(data[k], column) {
      assert FoundIn(data, column)[k] == Finds(data[k], column);
    }
  }

  /** If all data lines have the column, the pass is complete exactly if all of them have a number
      there, and it fails as an invalid time otherwise. */
  lemma DoneIffAllHaveTimes(lines: seq<seq<char>>, last: seq<char>, column: int)
    requires AreLines(lines) && AllHaveColumn(DataLines(lines), column)
    ensures var p := SecondPass(Text(lines) + last, column, |DataLines(lines)|);
      p.outcome == if AllHaveTimes(DataLines(lines), column) then Done else InvalidTime
  {
    var found := FoundIn(DataLines(lines), column);
    if AllHaveTimes(DataLines(lines), column) {
      FirstTimes(lines, last, column, |found|);
    } else {
      var k := FirstWithout(found);
      FirstTimes(lines, last, column, k);
      assert HasColumn(DataLines(lines)[k], column);
    }
  }

  lemma {:induction false} FirstWithout(found: seq<Found>) returns (k: nat)
    requires exists j :: 0 <= j < |found| && !found[j].number
    requires forall j :: 0 <= j < |found| ==> found[j].there
    ensures k < |found| && !found[k].number && NumbersTo(found, k)
    decreases |found|
  {
    var m := |found| - 1;
    if j :| 0 <= j < m && !found[j].number {
      assert !found[..m][j].number;
      k := FirstWithout(found[..m]);
      assert forall i :: 0 <= i < k ==> found[..m][i] == found[i];
    } else {
      k := m;
    }
  }

  /** Behind the comments comes the next data line. */
  lemma NextRow(lines: seq<seq<char>>, last: seq<char>)
    requires AreLines(lines) && DataLines(lines) != []
    ensures var rows, data := FromData(lines), DataLines(lines);
      && rows != [] && rows[0] == data[0] && '\n' !in data[0]
      && AfterComments(Text(lines) + last) == data[0] + (['\n'] + (Text(rows[1..]) + last))
      && AreLines(rows[1..]) && DataLines(rows[1..]) == data[1..]
  {
    var rows := FromData(lines);
    assert DataLines(rows) == [rows[0]] + DataLines(rows[1..]);
    AfterCommentsOfText(lines, last);
    TextSplit(rows, last);
    Regroup(rows[0], Text(rows[1..]) + last);
  }

  lemma Regroup(line: seq<char>, tail: seq<char>)
    ensures line + ['\n'] + tail == line + (['\n'] + tail)
  {
  }
}
