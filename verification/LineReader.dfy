/**
 The bounded line splitter of src/sys_util.h. The descriptor may return any non-empty
 part of what is asked for, so one theorem covers every way the stream is split into reads.
 */
module LineReader {
  // ----- reference definition, on the whole stream -----

  /** Position of the first newline, or |s| when there is none. */
  function FirstNewline(s: string): (n: nat)
    ensures n <= |s|
    ensures n < |s| ==> s[n] == '\n'
  {
    if s == [] || s[0] == '\n' then 0 else 1 + FirstNewline(s[1..])
  }

  function Short(line: string, size: nat): seq<string> {
    if |line| < size then [line] else []
  }

  /** Newline-terminated lines shorter than `size`, then a non-empty unterminated one shorter than `size`. */
  function Lines(s: string, size: nat): seq<string>
    decreases |s|
  {
    var n := FirstNewline(s);
    if n < |s| then Short(s[..n], size) + Lines(s[n + 1..], size)
    else if s == [] then []
    else Short(s, size)
  }

  // ----- unfolding the definition -----

  lemma {:induction false} FirstNewlineOver(head: string, tail: string)
    requires '\n' !in head
    ensures FirstNewline(head + tail) == |head| + FirstNewline(tail)
  {
    if head == [] {
      assert head + tail == tail;
    } else {
      assert (head + tail)[1..] == head[1..] + tail;
      FirstNewlineOver(head[1..], tail);
    }
  }

  /** A string is one without newlines, or one without newlines closed by the first newline, and the rest. */
  lemma {:induction false} AtFirstNewline(s: string)
    ensures var n := FirstNewline(s);
            '\n' !in s[..n] && (n < |s| ==> s == s[..n] + ['\n'] + s[n + 1..])
  {
    if s != [] && s[0] != '\n' {
      var n := FirstNewline(s[1..]);
      AtFirstNewline(s[1..]);
      assert s[..n + 1] == [s[0]] + s[1..][..n];
    }
  }

  lemma LineEnds(line: string, rest: string)
    requires '\n' !in line
    ensures var s := line + ['\n'] + rest;
            FirstNewline(s) == |line| && s[..|line|] == line && s[|line| + 1..] == rest
  {
    assert line + ['\n'] + rest == line + (['\n'] + rest);
    FirstNewlineOver(line, ['\n'] + rest);
  }

  lemma LinesCons(line: string, rest: string, size: nat)
    requires '\n' !in line
    ensures Lines(line + ['\n'] + rest, size) == Short(line, size) + Lines(rest, size)
  {
    LineEnds(line, rest);
  }

  lemma LinesEnd(s: string, size: nat)
    requires '\n' !in s
    ensures Lines(s, size) == if s == [] then [] else Short(s, size)
  {
    FirstNewlineOver(s, []);
    assert s + [] == s;
  }

  /** What follows the first newline. */
  function AfterLine(s: string): string {
    var n := FirstNewline(s);
    if n < |s| then s[n + 1..] else []
  }

  lemma AfterLineCons(line: string, rest: string)
    requires '\n' !in line
    ensures AfterLine(line + ['\n'] + rest) == rest
  {
    LineEnds(line, rest);
  }

  lemma AfterLineEnd(s: string)
    requires '\n' !in s
    ensures AfterLine(s) == []
  {
    FirstNewlineOver(s, []);
    assert s + [] == s;
  }

  /** A first line that is too long from the start is not emitted. */
  lemma LongLine(held: string, rest: string, size: nat)
    requires '\n' !in held && |held| >= size > 0
    ensures Lines(held + rest, size) == Lines(AfterLine(rest), size) == Lines(AfterLine(held + rest), size)
  {
    hide Lines, AfterLine;
    var n := FirstNewline(rest);
    var line := held + rest[..n];
    AtFirstNewline(rest);
    LinesEnd([], size);
    if n < |rest| {
      assert held + rest == line + ['\n'] + rest[n + 1..];
      LinesCons(line, rest[n + 1..], size);
      AfterLineCons(line, rest[n + 1..]);
      AfterLineCons(rest[..n], rest[n + 1..]);
    } else {
      assert rest[..n] == rest;
      LinesEnd(line, size);
      AfterLineEnd(line);
      AfterLineEnd(rest);
    }
  }

  // ----- what the reader owes while it holds `held` unread characters and may be ignoring a long line -----

  ghost function Owed(held: string, rest: string, ignore: bool, size: nat): seq<string> {
    Lines(if ignore then AfterLine(held + rest) else held + rest, size)
  }

  /** One complete line leaves the buffer. */
  lemma OwedLine(line: string, held: string, rest: string, ignore: bool, size: nat)
    requires '\n' !in line && |line| < size
    ensures Owed(line + ['\n'] + held, rest, ignore, size) ==
            (if ignore then [] else [line]) + Owed(held, rest, false, size)
  {
    hide Lines, AfterLine;
    assert line + ['\n'] + held + rest == line + ['\n'] + (held + rest);
    LinesCons(line, held + rest, size);
    AfterLineCons(line, held + rest);
  }

  lemma OwedLineAt(buf: string, start: nat, end: nat, rest: string, ignore: bool, size: nat)
    requires start <= end < |buf| <= size && buf[end] == '\n' && '\n' !in buf[start..end]
    ensures Owed(buf[start..], rest, ignore, size) ==
            (if ignore then [] else [buf[start..end]]) + Owed(buf[end + 1..], rest, false, size)
  {
    assert buf[start..] == buf[start..end] + ['\n'] + buf[end + 1..];
    OwedLine(buf[start..end], buf[end + 1..], rest, ignore, size);
  }

  /** A full buffer without a newline can be forgotten. */
  lemma OwedFull(held: string, rest: string, ignore: bool, size: nat)
    requires '\n' !in held && |held| == size > 0
    ensures Owed(held, rest, ignore, size) == Owed([], rest, true, size)
  {
    hide Lines, AfterLine;
    LongLine(held, rest, size);
    assert [] + rest == rest;
  }

  lemma OwedAtEnd(held: string, ignore: bool, size: nat)
    requires '\n' !in held && |held| < size
    ensures Owed(held, [], ignore, size) == if held != [] && !ignore then [held] else []
  {
    hide Lines, AfterLine;
    assert held + [] == held;
    AfterLineEnd(held);
    LinesEnd(held, size);
    LinesEnd([], size);
  }

  /** The reader may take more characters from what is left. */
  lemma OwedMore(held: string, got: string, rest: string, ignore: bool, size: nat)
    ensures Owed(held, got + rest, ignore, size) == Owed(held + got, rest, ignore, size)
  {
    assert held + (got + rest) == (held + got) + rest;
  }

  lemma OwedAtFirst(rest: string, size: nat)
    ensures Owed([], rest, false, size) == Lines(rest, size)
  {
    assert [] + rest == rest;
  }

  // ----- the reader -----

  class FileDescriptor {
    var rest: string  // what has not been read yet

    /** An arbitrary non-empty part of what is left, and nothing only at the end. */
    method Read(count: nat) returns (got: string)
      requires count > 0
      modifies this
      ensures old(rest) == got + rest
      ensures |got| <= count
      ensures got == [] <==> old(rest) == []
    {
      if rest == [] {
        return [];
      }
      var n :| 1 <= n <= count && n <= |rest|;
      got := rest[..n];
      rest := rest[n..];
    }
  }

  class Reader {
    const bufferSize: nat
    var sink: seq<string>  // the lines handed to the sink so far

    constructor (bufferSize: nat)
      ensures this.bufferSize == bufferSize && sink == []
    {
      this.bufferSize := bufferSize;
      sink := [];
    }

    /** Scans the buffer, emits the complete lines in it and returns what follows the last newline. */
    method EmitLines(buf: string, ignoreIn: bool, ghost rest: string) returns (tail: string, ignore: bool)
      requires |buf| <= bufferSize
      modifies this`sink
      ensures sink + Owed(tail, rest, ignore, bufferSize) == old(sink) + Owed(buf, rest, ignoreIn, bufferSize)
      ensures '\n' !in tail && |tail| <= |buf|
    {
      hide Owed;
      ignore := ignoreIn;
      var processedEnd, cur := 0, 0;
      while cur != |buf|
        invariant 0 <= processedEnd <= cur <= |buf|
        invariant '\n' !in buf[processedEnd..cur]
        invariant sink + Owed(buf[processedEnd..], rest, ignore, bufferSize) ==
                  old(sink) + Owed(buf, rest, ignoreIn, bufferSize)
        decreases |buf| - cur
      {
        if buf[cur] == '\n' {
          OwedLineAt(buf, processedEnd, cur, rest, ignore, bufferSize);
          ghost var owed := Owed(buf[cur + 1..], rest, false, bufferSize);
          if !ignore {
            var line := buf[processedEnd..cur];
            assert sink + ([line] + owed) == (sink + [line]) + owed;
            sink := sink + [line];
          } else {
            assert [] + owed == owed;
          }
          ignore := false;
          cur := cur + 1;
          processedEnd := cur;
        } else {
          assert buf[processedEnd..cur + 1] == buf[processedEnd..cur] + [buf[cur]];
          cur := cur + 1;
        }
      }
      tail := buf[processedEnd..];
      assert tail == buf[processedEnd..cur];
    }

    method Run(fd: FileDescriptor)
      requires bufferSize > 0
      modifies this, fd
      ensures sink == old(sink) + Lines(old(fd.rest), bufferSize)
      ensures fd.rest == []
    {
      hide Owed, Lines;
      var buf := [];
      var ignore := false;
      ghost var goal := old(sink) + Lines(old(fd.rest), bufferSize);
      OwedAtFirst(fd.rest, bufferSize);
      while true
        invariant '\n' !in buf && |buf| < bufferSize
        invariant sink + Owed(buf, fd.rest, ignore, bufferSize) == goal
        decreases |fd.rest|
      {
        var offset := |buf|;
        var addition := if bufferSize - offset < bufferSize then bufferSize - offset else bufferSize;
        assert addition > 0;
        var got := fd.Read(addition);
        OwedMore(buf, got, fd.rest, ignore, bufferSize);
        buf := buf + got;
        var done := got == [];
        buf, ignore := EmitLines(buf, ignore, fd.rest);
        if |buf| == bufferSize {
          OwedFull(buf, fd.rest, ignore, bufferSize);
          ignore := true;
          buf := [];
        }
        if done {
          break;
        }
      }
      OwedAtEnd(buf, ignore, bufferSize);
      if buf != [] && !ignore {
        sink := sink + [buf];
      }
    }
  }

  // ----- what the definition promises -----

  /** The stream made of `lines`, each closed by a newline, followed by `last`. */
  ghost function Join(lines: seq<string>, last: string): string {
    if lines == [] then last else lines[0] + ['\n'] + Join(lines[1..], last)
  }

  ghost function ShortOnes(lines: seq<string>, size: nat): seq<string> {
    if lines == [] then [] else (if |lines[0]| < size then [lines[0]] else []) + ShortOnes(lines[1..], size)
  }

  /** Every stream has that form. */
  lemma {:induction false} StreamIsJoined(s: string) returns (lines: seq<string>, last: string)
    ensures s == Join(lines, last) && '\n' !in last
    ensures forall l :: l in lines ==> '\n' !in l
    decreases |s|
  {
    var n := FirstNewline(s);
    AtFirstNewline(s);
    if n == |s| {
      lines, last := [], s;
      assert s[..n] == s;
    } else {
      var later;
      later, last := StreamIsJoined(s[n + 1..]);
      lines := [s[..n]] + later;
      assert lines[1..] == later;
    }
  }

  /** Any stream is some lines and an unterminated rest; exactly the short ones come out, in order. */
  lemma {:induction false} LinesOfJoined(lines: seq<string>, last: string, size: nat)
    requires forall l :: l in lines ==> '\n' !in l
    requires '\n' !in last
    ensures Lines(Join(lines, last), size) ==
            ShortOnes(lines, size) + if last != [] && |last| < size then [last] else []
  {
    hide Lines;
    var end := if last != [] && |last| < size then [last] else [];
    if lines == [] {
      LinesEnd(last, size);
      assert [] + end == end;
    } else {
      assert lines[0] in lines && forall l :: l in lines[1..] ==> l in lines;
      LinesOfJoined(lines[1..], last, size);
      LinesCons(lines[0], Join(lines[1..], last), size);
      assert Short(lines[0], size) + (ShortOnes(lines[1..], size) + end) == ShortOnes(lines, size) + end;
    }
  }
}
