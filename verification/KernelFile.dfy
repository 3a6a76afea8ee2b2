/**
  read_file of src/kernel_iface.c: collect a file into a buffer through any number of short
  reads.
 */
module KernelFile {

  /** A file and the way the kernel will serve it: what the k-th read call does is up to
      `script`, negative for an error, otherwise a wish for how many bytes to deliver. */
  class File {
    const present: bool
    const content: seq<char>
    const script: nat -> int

    constructor (present: bool, content: seq<char>, script: nat -> int)
      ensures this.present == present && this.content == content && this.script == script
    {
      this.present := present;
      this.content := content;
      this.script := script;
    }

    ghost predicate ErrorFree() {
      present && forall k: nat :: script(k) >= 0
    }
  }

  /** An open file. */
  class Descriptor {
    const file: File
    var offset: nat
    var calls: nat

    constructor (file: File)
      ensures this.file == file && offset == 0 && calls == 0
    {
      this.file := file;
      offset, calls := 0, 0;
    }

    ghost predicate Valid()
      reads this
    {
      offset <= |file.content|
    }

    /** read(fd, buf + at, count): at least one byte unless at the end, at most count. */
    method Read(buf: array<char>, at: nat, count: nat) returns (n: int)
      requires Valid() && at + count <= buf.Length && count > 0
      modifies this`offset, this`calls, buf
      ensures Valid() && calls == old(calls) + 1
      ensures n < 0 <==> file.script(old(calls)) < 0
      ensures n < 0 ==> n == -1 && offset == old(offset) && buf[..] == old(buf[..])
      ensures n >= 0 ==>
        && n <= count && offset == old(offset) + n
        && (n == 0 <==> old(offset) == |file.content|)
        && buf[..] == old(buf[..at]) + file.content[old(offset)..offset] + old(buf[at + n..])
    {
      var wish := file.script(calls);
      calls := calls + 1;
      if wish < 0 {
        return -1;
      }
      var left := |file.content| - offset;
      n := if wish < 1 then 1 else wish;
      n := if n > count then count else n;
      n := if n > left then left else n;
      CopyTo(buf, at, file.content[offset..offset + n]);
      offset := offset + n;
    }
  }

  method CopyTo(buf: array<char>, at: nat, data: seq<char>)
    requires at + |data| <= buf.Length
    modifies buf
    ensures buf[..] == old(buf[..at]) + data + old(buf[at + |data|..])
  {
    for i := 0 to |data|
      invariant forall k :: 0 <= k < buf.Length ==>
        buf[k] == if at <= k < at + i then data[k - at] else old(buf[k])
    {
      buf[at + i] := data[i];
    }
  }

  function Min(a: nat, b: nat): nat { if a < b then a else b }

  /** The first `got` characters of the file are in the buffer, the rest is as it was. */
  ghost predicate Collected(now: seq<char>, content: seq<char>, start: seq<char>, got: nat) {
    got <= |content| && got <= |start| && now == content[..got] + start[got..]
  }

  lemma CollectedGrows(content: seq<char>, start: seq<char>, before: seq<char>, after: seq<char>, got: nat, n: nat)
    requires Collected(before, content, start, got) && got + n <= |content| && got + n <= |start|
    requires after == before[..got] + content[got..got + n] + before[got + n..]
    ensures Collected(after, content, start, got + n)
  {
    assert before[got + n..] == start[got + n..];
    assert before[..got] == content[..got];
    assert content[..got] + content[got..got + n] == content[..got + n];
  }

  /** Whatever the lengths of the reads, an error-free read_file delivers the longest prefix of
      the file that fits and leaves the rest of the buffer as it was. */
  method ReadFile(file: File, buf: array<char>, maxlen: nat) returns (got: int)
    requires maxlen <= buf.Length
    modifies buf
    ensures got >= -1
    ensures got >= 0 ==>
      && file.present && got == Min(maxlen, |file.content|)
      && buf[..] == file.content[..got] + old(buf[..])[got..]
    ensures file.ErrorFree() ==> got >= 0
    ensures !file.present ==> got == -1
  {
    if !file.present {
      return -1;
    }
    var fd := new Descriptor(file);
    got := ReadAll(fd, buf, maxlen);
  }

  /** The loop of read_file. */
  method ReadAll(fd: Descriptor, buf: array<char>, maxlen: nat) returns (got: int)
    requires fd.Valid() && fd.offset == 0 && maxlen <= buf.Length
    modifies fd`offset, fd`calls, buf
    ensures got >= -1 && (got < 0 ==> !fd.file.ErrorFree())
    ensures got >= 0 ==> got == Min(maxlen, |fd.file.content|) && Collected(buf[..], fd.file.content, old(buf[..]), got)
  {
    ghost var start := buf[..];
    got := 0;
    while got < maxlen
      invariant 0 <= got <= maxlen && fd.Valid() && got == fd.offset
      invariant Collected(buf[..], fd.file.content, start, got)
      decreases maxlen - got
    {
      var n := ReadMore(fd, buf, start, got, maxlen);
      if n <= 0 {
        return if n < 0 then -1 else got;
      }
      got := got + n;
    }
  }

  /** The read call of the loop. */
  method ReadMore(fd: Descriptor, buf: array<char>, ghost start: seq<char>, got: nat, maxlen: nat) returns (n: int)
    requires fd.Valid() && got == fd.offset < maxlen <= buf.Length == |start|
    requires Collected(buf[..], fd.file.content, start, got)
    modifies fd`offset, fd`calls, buf
    ensures fd.Valid() && got + n <= maxlen && (n < 0 ==> n == -1 && !fd.file.ErrorFree())
    ensures n >= 0 ==> fd.offset == got + n && Collected(buf[..], fd.file.content, start, got + n)
    ensures n == 0 ==> got == |fd.file.content|
  {
    ghost var before := buf[..];
    n := fd.Read(buf, got, maxlen - got);
    if n >= 0 {
      CollectedGrows(fd.file.content, start, before, buf[..], got, n);
    }
  }
}
