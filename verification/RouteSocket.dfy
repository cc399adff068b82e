/**
 Cutting the byte stream of a routing socket into messages, with an unfinished tail carried
 from one read to the next: src/interface_monitor_bsd.cpp.
 */
module RouteSocket {
  import opened Basics

  // ----- reference definition -----

  datatype Cut = Cut(messages: seq<seq<byte>>, tail: seq<byte>)

  /** All whole messages at the front of `s`, and what is left. */
  function Frames(le: bool, s: seq<byte>): Cut
    decreases |s|
  {
    if |s| <= 2 || U16(le, s) > |s| || U16(le, s) == 0 then Cut([], s)
    else
      var rest := Frames(le, s[U16(le, s)..]);
      Cut([s[..U16(le, s)]] + rest.messages, rest.tail)
  }

  /** A routing message: at least a header long, no longer than the buffer, and as long as its first two bytes say. */
  ghost predicate Message(le: bool, header: nat, room: nat, m: seq<byte>)
    requires header >= 4
  {
    header <= |m| <= room && U16(le, m) == |m|
  }

  ghost predicate Messages(le: bool, header: nat, room: nat, ms: seq<seq<byte>>)
    requires header >= 4
  {
    forall m :: m in ms ==> Message(le, header, room, m)
  }

  lemma FramesOfPart(le: bool, header: nat, room: nat, s: seq<byte>, m: seq<byte>)
    requires header >= 4 && Message(le, header, room, m) && s < m
    ensures Frames(le, s) == Cut([], s)
  {
    if |s| > 2 {
      assert s[0] == m[0] && s[1] == m[1];
    }
  }

  lemma FramesOfWhole(le: bool, header: nat, room: nat, m: seq<byte>, rest: seq<byte>)
    requires header >= 4 && Message(le, header, room, m)
    ensures var cut := Frames(le, rest); Frames(le, m + rest) == Cut([m] + cut.messages, cut.tail)
  {
    var s := m + rest;
    assert s[0] == m[0] && s[1] == m[1];
    assert s[..|m|] == m && s[|m|..] == rest;
  }

  /** A prefix of `m + more` is a proper prefix of `m`, or `m` and a prefix of `more`. */
  lemma PrefixOfTwo(s: seq<byte>, m: seq<byte>, more: seq<byte>)
    requires s <= m + more
    ensures if |s| < |m| then s < m else s == m + s[|m|..] && s[|m|..] <= more
  {
    if |s| < |m| {
      assert s == (m + more)[..|s|] == m[..|s|];
    } else {
      assert s == (m + more)[..|s|] == m + more[..|s| - |m|];
    }
  }

  lemma FlattenFront(ms: seq<seq<byte>>, j: nat)
    requires ms != [] && j <= |ms[1..]|
    ensures ms[..j + 1] == [ms[0]] + ms[1..][..j]
    ensures Flatten(ms[..j + 1]) == ms[0] + Flatten(ms[1..][..j])
  {
    assert ms[..j + 1][1..] == ms[1..][..j];
  }

  /** Any beginning of a message stream falls into its first messages and a proper prefix of the next one. */
  lemma {:induction false} FramesOfStream(le: bool, header: nat, room: nat, s: seq<byte>, ms: seq<seq<byte>>)
    returns (k: nat)
    requires header >= 4 && Messages(le, header, room, ms) && s <= Flatten(ms)
    ensures k <= |ms| && Frames(le, s).messages == ms[..k]
    ensures s == Flatten(ms[..k]) + Frames(le, s).tail
    ensures if k == |ms| then Frames(le, s).tail == [] else Frames(le, s).tail < ms[k]
    decreases |ms|
  {
    hide Message, U16, Frames;
    k := 0;
    if ms == [] {
      FramesOfNothing(le);
      return;
    }
    var m := ms[0];
    assert m in ms && Message(le, header, room, m);
    PrefixOfTwo(s, m, Flatten(ms[1..]));
    if |s| < |m| {
      FramesOfPart(le, header, room, s, m);
    } else {
      var rest := s[|m|..];
      FramesOfWhole(le, header, room, m, rest);
      var j := FramesOfStream(le, header, room, rest, ms[1..]);
      FlattenFront(ms, j);
      k := j + 1;
      assert s == Flatten(ms[..k]) + Frames(le, rest).tail;
    }
  }

  lemma FramesOfNothing(le: bool)
    ensures Frames(le, []) == Cut([], [])
  {
  }

  /** The reads one after the other, each appended to what the previous ones left. */
  function CutReads(le: bool, carry: seq<byte>, pieces: seq<seq<byte>>): Cut
    decreases |pieces|
  {
    if pieces == [] then Cut([], carry)
    else
      var one := Frames(le, carry + pieces[0]);
      var rest := CutReads(le, one.tail, pieces[1..]);
      Cut(one.messages + rest.messages, rest.tail)
  }

  lemma {:induction false} FramesAppend(le: bool, s: seq<byte>, more: seq<byte>)
    ensures var one := Frames(le, s); var rest := Frames(le, one.tail + more);
            Frames(le, s + more) == Cut(one.messages + rest.messages, rest.tail)
    ensures Frames(le, Frames(le, s).tail) == Cut([], Frames(le, s).tail)
    decreases |s|
  {
    hide Frames, U16;
    if |s| <= 2 || U16(le, s) > |s| || U16(le, s) == 0 {
      FramesStop(le, s);
      assert [] + Frames(le, s + more).messages == Frames(le, s + more).messages;
    } else {
      var n := U16(le, s);
      var all := s + more;
      SameLength(le, all, s);
      assert all[..n] == s[..n] && all[n..] == s[n..] + more;
      FramesStep(le, s);
      FramesStep(le, all);
      FramesAppend(le, s[n..], more);
      var one, rest := Frames(le, s[n..]), Frames(le, Frames(le, s).tail + more);
      assert [s[..n]] + (one.messages + rest.messages) == ([s[..n]] + one.messages) + rest.messages;
    }
  }

  lemma FramesStep(le: bool, s: seq<byte>)
    requires |s| > 2 && 0 < U16(le, s) <= |s|
    ensures var n := U16(le, s); var rest := Frames(le, s[n..]);
            Frames(le, s) == Cut([s[..n]] + rest.messages, rest.tail)
  {
  }

  lemma FramesStop(le: bool, s: seq<byte>)
    requires |s| <= 2 || U16(le, s) > |s| || U16(le, s) == 0
    ensures Frames(le, s) == Cut([], s)
  {
  }

  /** However bytes are split into reads, the same messages come out and the same tail is left. */
  lemma {:induction false} SplitIrrelevant(le: bool, carry: seq<byte>, pieces: seq<seq<byte>>)
    requires Frames(le, carry) == Cut([], carry)
    ensures CutReads(le, carry, pieces) == Frames(le, carry + Flatten(pieces))
    decreases |pieces|
  {
    if pieces == [] {
      assert carry + Flatten(pieces) == carry;
    } else {
      var s, later := carry + pieces[0], Flatten(pieces[1..]);
      assert s + later == carry + Flatten(pieces);
      FramesAppend(le, s, later);
      SplitIrrelevant(le, Frames(le, s).tail, pieces[1..]);
    }
  }

  lemma TwoParts(ms: seq<seq<byte>>, j: nat)
    requires j <= |ms|
    ensures Flatten(ms) == Flatten(ms[..j]) + Flatten(ms[j..])
  {
    FlattenAppend(ms[..j], ms[j..]);
    assert ms[..j] + ms[j..] == ms;
  }

  lemma FlattenLonger(ms: seq<seq<byte>>, k: nat)
    requires k < |ms|
    ensures |Flatten(ms)| >= |Flatten(ms[..k])| + |ms[k]|
  {
    TwoParts(ms, k);
  }

  /** A whole stream, read in any pieces, comes out as the messages it was made of, with nothing left. */
  lemma WholeStream(le: bool, header: nat, room: nat, pieces: seq<seq<byte>>, ms: seq<seq<byte>>)
    requires header >= 4 && Messages(le, header, room, ms)
    requires Flatten(pieces) == Flatten(ms)
    ensures CutReads(le, [], pieces) == Cut(ms, [])
  {
    SplitIrrelevant(le, [], pieces);
    assert [] + Flatten(pieces) == Flatten(ms);
    var k := FramesOfStream(le, header, room, Flatten(ms), ms);
    if k < |ms| {
      FlattenLonger(ms, k);
    }
    assert ms[..|ms|] == ms;
  }

  /** After any part of a stream, the tail is a proper prefix of the next message, so it leaves room for a read. */
  lemma TailLeavesRoom(le: bool, header: nat, room: nat, pieces: seq<seq<byte>>, ms: seq<seq<byte>>) returns (k: nat)
    requires header >= 4 && Messages(le, header, room, ms) && room > 0
    requires Flatten(pieces) <= Flatten(ms)
    ensures k <= |ms|
    ensures var cut := CutReads(le, [], pieces);
            && cut.messages == ms[..k]
            && (if k == |ms| then cut.tail == [] else cut.tail < ms[k])
            && |cut.tail| < room
  {
    SplitIrrelevant(le, [], pieces);
    assert [] + Flatten(pieces) == Flatten(pieces);
    k := FramesOfStream(le, header, room, Flatten(pieces), ms);
    assert k < |ms| ==> ms[k] in ms;
  }

  lemma SameLength(le: bool, s: seq<byte>, t: seq<byte>)
    requires |s| >= 2 && |t| >= 2 && s[0] == t[0] && s[1] == t[1]
    ensures U16(le, s) == U16(le, t)
  {
  }

  /** A whole message at the front of a stream is the first one of it. */
  lemma Front(le: bool, header: nat, room: nat, s: seq<byte>, ms: seq<seq<byte>>)
    requires header >= 4 && Messages(le, header, room, ms) && s <= Flatten(ms)
    requires |s| > 2 && U16(le, s) <= |s|
    ensures ms != [] && header <= U16(le, s) && s[U16(le, s)..] <= Flatten(ms[1..])
    ensures Messages(le, header, room, ms[1..])
  {
    var m := ms[0];
    assert m in ms;
    PrefixOfTwo(s, m, Flatten(ms[1..]));
    assert s[0] == m[0] && s[1] == m[1];
  }

  // ----- the monitor -----

  class RouteMonitor {
    const littleEndian: bool
    const header: nat  // size of a routing message header
    const recvBuffer: array<byte>
    var recvOffset: nat
    var handed: seq<seq<byte>>  // the messages looked at so far

    ghost predicate Valid()
      reads this
    {
      header >= 4 && recvOffset <= recvBuffer.Length
    }

    constructor (littleEndian: bool, header: nat, pageSize: nat)
      requires header >= 4
      ensures Valid() && fresh(recvBuffer) && recvBuffer.Length == pageSize && recvOffset == 0 && handed == []
      ensures this.littleEndian == littleEndian && this.header == header
    {
      this.littleEndian, this.header := littleEndian, header;
      recvBuffer := new byte[pageSize](_ => 0);
      recvOffset, handed := 0, [];
    }

    /** The loop of parseTable; returns where it stops. */
    method ParseTable(last: nat, ghost ms: seq<seq<byte>>) returns (first: nat)
      requires Valid() && last <= recvBuffer.Length
      requires Messages(littleEndian, header, recvBuffer.Length, ms) && recvBuffer[..last] <= Flatten(ms)
      modifies this`handed
      ensures first <= last
      ensures var cut := Frames(littleEndian, recvBuffer[..last]);
              handed == old(handed) + cut.messages && recvBuffer[first..last] == cut.tail
    {
      hide Frames, Messages, U16;
      first := 0;
      ghost var rest := ms;
      ghost var whole := Frames(littleEndian, recvBuffer[..last]);
      assert recvBuffer[0..last] == recvBuffer[..last];
      while last - first > 2
        invariant first <= last
        invariant Messages(littleEndian, header, recvBuffer.Length, rest) && recvBuffer[first..last] <= Flatten(rest)
        invariant handed + Frames(littleEndian, recvBuffer[first..last]).messages == old(handed) + whole.messages
        invariant Frames(littleEndian, recvBuffer[first..last]).tail == whole.tail
        decreases last - first
      {
        ghost var s := recvBuffer[first..last];
        var length := U16(littleEndian, recvBuffer[first..first + 2]);
        SameLength(littleEndian, s, recvBuffer[first..first + 2]);
        if length > last - first {
          break;
        }
        Front(littleEndian, header, recvBuffer.Length, s, rest);
        FramesStep(littleEndian, s);
        var kind := recvBuffer[first + 3];  // the type decides what becomes of the message
        var message := recvBuffer[first..first + length];
        ghost var others := Frames(littleEndian, s[length..]).messages;
        SubSlice(recvBuffer, first, last, 0, length);
        SubSlice(recvBuffer, first, last, length, last - first);
        assert s[0..length] == s[..length] && s[length..last - first] == s[length..];
        assert handed + ([message] + others) == (handed + [message]) + others;
        handed := handed + [message];
        first := first + length;
        rest := rest[1..];
      }
      FramesStop(littleEndian, recvBuffer[first..last]);
      assert handed + [] == handed;
    }

    /** What the socket does with the buffer it was given. */
    method Store(chunk: seq<byte>)
      requires recvOffset + |chunk| <= recvBuffer.Length
      modifies recvBuffer
      ensures recvBuffer[..recvOffset + |chunk|] == old(recvBuffer[..recvOffset]) + chunk
    {
      forall i | 0 <= i < |chunk| {
        recvBuffer[recvOffset + i] := chunk[i];
      }
    }

    method MoveToFront(first: nat, end: nat)
      requires first <= end <= recvBuffer.Length
      modifies recvBuffer
      ensures recvBuffer[..end - first] == old(recvBuffer[first..end])
    {
      forall i | 0 <= i < end - first {
        recvBuffer[i] := recvBuffer[first + i];
      }
    }

    /** One completed read: `chunk` was stored behind the carried tail. */
    method OnRead(chunk: seq<byte>, ghost ms: seq<seq<byte>>) returns (ghost k: nat)
      requires Valid() && |chunk| <= recvBuffer.Length - recvOffset
      requires Messages(littleEndian, header, recvBuffer.Length, ms)
      requires recvBuffer[..recvOffset] + chunk <= Flatten(ms)
      modifies this`handed, this`recvOffset, recvBuffer
      ensures Valid()
      ensures var cut := Frames(littleEndian, old(recvBuffer[..recvOffset]) + chunk);
              handed == old(handed) + cut.messages && recvBuffer[..recvOffset] == cut.tail
      // exactly the next k messages, and the tail is a proper prefix of the one after them
      ensures k <= |ms| && handed == old(handed) + ms[..k]
      ensures if k == |ms| then recvOffset == 0 else recvBuffer[..recvOffset] < ms[k]
      // so there is room for the next read
      ensures k < |ms| ==> recvOffset < recvBuffer.Length
    {
      hide Frames, Message;
      ghost var carry := recvBuffer[..recvOffset];
      Store(chunk);
      var end := recvOffset + |chunk|;
      k := FramesOfStream(littleEndian, header, recvBuffer.Length, carry + chunk, ms);
      var last := ParseTable(end, ms);
      MoveToFront(last, end);
      recvOffset := end - last;
      if k < |ms| {
        assert ms[k] in ms;
        AtMost(littleEndian, header, recvBuffer.Length, ms[k]);
      }
    }
  }

  lemma AtMost(le: bool, header: nat, room: nat, m: seq<byte>)
    requires header >= 4 && Message(le, header, room, m)
    ensures |m| <= room
  {
  }
}
