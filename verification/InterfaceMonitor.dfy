/** The loops of src/interface_monitor_linux.cpp over the receive buffer. */
module InterfaceMonitor {
  import opened Basics
  import opened Netlink

  lemma AttributesStep(env: Env, i: Interface, s: seq<byte>, r: Scan)
    requires r.Scan? && AttributeFits(env.littleEndian, s) && |s| % 4 == 0
    ensures var n := U16(env.littleEndian, s);
            && RoundUp(n) <= |s|
            && Attributes(env, i, s, r) ==
               Attributes(env, i, s[RoundUp(n)..], Note(env, i, r, U16(env.littleEndian, s[2..]), s[4..n]))
  {
    RoundUpFits(U16(env.littleEndian, s), |s|);
  }

  lemma AttributesStop(env: Env, i: Interface, s: seq<byte>, r: Scan)
    requires r.Scan? && !AttributeFits(env.littleEndian, s)
    ensures Attributes(env, i, s, r) == r
  {
  }

  /** `s` are the bytes from the cursor on; what one turn of the parseBuffer loop leaves to do. */
  lemma ParseStep(env: Env, s: seq<byte>, cache: Cache)
    requires |s| >= 4
    requires var length := NlAlign(U32(env.littleEndian, s)); HEADER_SIZE <= length <= |s|
    ensures var length := NlAlign(U32(env.littleEndian, s)); var kind := U16(env.littleEndian, s[4..]);
            Parse(env, s, cache) ==
            if kind == ERROR_MESSAGE then Outcome(Error, [])
            else if kind == OVERRUN_MESSAGE then Outcome(BufferTooSmall, [])
            else if kind == DONE_MESSAGE then Outcome(Done, [])
            else if kind != NEW_ADDRESS && kind != DELETED_ADDRESS then Parse(env, s[length..], cache)
            else
              match Examine(env, s[HEADER_SIZE..])
              case OutOfBounds => Outcome(Escaped, [])
              case Skip => Parse(env, s[length..], cache)
              case Report(f) =>
                var d := Detect(env, kind == NEW_ADDRESS, f, cache); var rest := Parse(env, s[length..], d.cache);
                Outcome(rest.status, d.events + rest.events)
  {
  }

  /** The outcome when the loop stops here, having reported `events` since it started. */
  ghost predicate Ends(o: Outcome, status: Status, before: seq<Event>, now: seq<Event>) {
    o.status == status && now == before + o.events
  }

  /** The attribute at `rta`, read from the buffer, is the one at the front of the bytes from there on. */
  lemma AttributeAt(le: bool, a: array<byte>, rta: nat, last: nat)
    requires rta + 4 <= last <= a.Length
    ensures var s := a[rta..last]; var n := U16(le, a[rta..rta + 2]);
            && U16(le, s) == n
            && U16(le, a[rta + 2..rta + 4]) == U16(le, s[2..])
            && (4 <= n <= last - rta ==> a[rta + 4..rta + n] == s[4..n])
            && (RoundUp(n) <= last - rta ==> a[rta + RoundUp(n)..last] == s[RoundUp(n)..])
  {
    var s := a[rta..last];
    var n := U16(le, a[rta..rta + 2]);
    SubSlice(a, rta, last, 0, 2);
    SubSlice(a, rta, last, 2, 4);
    assert s[2..][0] == a[rta + 2] && s[2..][1] == a[rta + 3];
    if 4 <= n <= last - rta {
      SubSlice(a, rta, last, 4, n);
    }
    if RoundUp(n) <= last - rta {
      SubSlice(a, rta, last, RoundUp(n), last - rta);
      assert s[RoundUp(n)..last - rta] == s[RoundUp(n)..];
    }
  }

  class InterfaceMonitorImpl {
    const env: Env
    var recvBuffer: array<byte>
    var handled: seq<Event>  // the calls of addAddress and removeAddress so far
    var requests: nat        // how often all addresses were asked for

    constructor (env: Env, pageSize: nat)
      ensures this.env == env && fresh(recvBuffer) && recvBuffer.Length == 2 * pageSize
      ensures handled == [] && requests == 0
    {
      this.env := env;
      recvBuffer := new byte[2 * pageSize](_ => 0);
      handled, requests := [], 0;
    }

    /** The remaining size never drops below zero, because what is left is a number of whole words. */
    method ScanAttributes(i: Interface, ptr: nat, size: nat) returns (r: Scan)
      requires ptr + size <= recvBuffer.Length && size % 4 == 0
      ensures r == Attributes(env, i, recvBuffer[ptr..ptr + size], Scan(None, None)) && r.Scan?
    {
      hide U16, Note, Attributes, RoundUp;
      r := Scan(None, None);
      var rta: nat, remaining: nat := ptr, size;
      ghost var last := ptr + size;
      var le := env.littleEndian;
      AttributesStayInside(env, i, recvBuffer[ptr..last], r);
      while remaining >= ATTRIBUTE_HEADER && ATTRIBUTE_HEADER <= U16(le, recvBuffer[rta..rta + 2]) <= remaining
        invariant rta + remaining == last <= recvBuffer.Length && remaining % 4 == 0 && r.Scan?
        invariant Attributes(env, i, recvBuffer[rta..last], r) ==
                  Attributes(env, i, recvBuffer[ptr..last], Scan(None, None))
        decreases remaining
      {
        var length := U16(le, recvBuffer[rta..rta + 2]);
        AttributeAt(le, recvBuffer, rta, last);
        AttributesStep(env, i, recvBuffer[rta..last], r);
        var kind := U16(le, recvBuffer[rta + 2..rta + 4]);
        r := Note(env, i, r, kind, recvBuffer[rta + 4..rta + length]);
        WholeWords(remaining, RoundUp(length));
        rta, remaining := rta + RoundUp(length), remaining - RoundUp(length);
      }
      if remaining >= ATTRIBUTE_HEADER {
        AttributeAt(le, recvBuffer, rta, last);
      }
      AttributesStop(env, i, recvBuffer[rta..last], r);
    }

    /** The part of parseBuffer after the message header at `cur - 16`, up to the call of handleDetected. */
    method ParseAddress(cur: nat, last: nat) returns (found: Option<Found>)
      requires HEADER_SIZE <= cur <= last <= recvBuffer.Length && (last - cur) % 4 == 0
      ensures Examine(env, recvBuffer[cur..last]) == match found case None => Skip case Some(f) => Report(f)
    {
      hide Attributes, U32, U16;
      ghost var s := recvBuffer[cur..last];
      if last - cur < ADDRESS_SIZE {
        return None;
      }
      if Unwanted(recvBuffer[cur + 2]) {
        return None;
      }
      var family := recvBuffer[cur];
      if family != INET && family != INET6 {
        return None;
      }
      var index := U32(env.littleEndian, recvBuffer[cur + 4..cur + 8]);
      SubSlice(recvBuffer, cur, last, 4, 8);
      FrontNumbers(env.littleEndian, s[4..8], s[8..]);
      assert s[4..8] + s[8..] == s[4..];
      assert recvBuffer[cur + ADDRESS_SIZE..last] == s[ADDRESS_SIZE..];
      var r := ScanAttributes(Interface(index, family), cur + ADDRESS_SIZE, last - (cur + ADDRESS_SIZE));
      var name := r.ifname;
      if name.None? && r.addr.Some? {
        name := env.nameOf(index);
      }
      if name.None? || r.addr.None? {
        return None;
      }
      if !env.allowed(name.value) {
        return None;
      }
      return Some(Found(index, name.value, r.addr.value));
    }

    method HandleDetected(isAdded: bool, f: Found, known: Cache) returns (known': Cache)
      modifies this`handled
      ensures var d := Detect(env, isAdded, f, known); handled == old(handled) + d.events && known' == d.cache
    {
      known' := known;
      if isAdded {
        var ignore := true;
        if f.index !in known {
          var flags := env.flagsOf(f.name);
          if flags.Some? {
            ignore := flags.value.loopback || !flags.value.multicast;
            known' := known[f.index := ignore];
          }
        } else {
          ignore := known[f.index];
        }
        if !ignore {
          handled := handled + [Added(f.index, f.name, f.addr)];
        }
      } else {
        handled := handled + [Removed(f.index, f.name, f.addr)];
      }
    }

    method ParseBuffer(last: nat) returns (status: Status)
      requires last <= recvBuffer.Length && last % 4 == 0
      modifies this`handled
      ensures Ends(Parse(env, recvBuffer[..last], map[]), status, old(handled), handled)
      ensures !status.Escaped?
    {
      hide Parse, Examine, Detect, U32, U16;
      var known: Cache := map[];
      var first := 0;
      ghost var whole := Parse(env, recvBuffer[..last], map[]);
      ParseStaysInside(env, recvBuffer[..last], map[]);
      assert recvBuffer[0..last] == recvBuffer[..last];
      while last - first != 0
        invariant first <= last && (last - first) % 4 == 0
        invariant var rest := Parse(env, recvBuffer[first..last], known);
                  whole.status == rest.status && old(handled) + whole.events == handled + rest.events
        decreases last - first
      {
        ghost var s := recvBuffer[first..last];
        var length, kind := ReadHeader(first, last);
        if length > last - first {
          TooShort(env, s, known);
          return BufferTooSmall;
        }
        if length < HEADER_SIZE {
          TooShort(env, s, known);
          return Error;
        }
        ParseStep(env, s, known);
        assert recvBuffer[first + length..last] == s[length..] && recvBuffer[first + HEADER_SIZE..last] == s[HEADER_SIZE..];
        if kind == ERROR_MESSAGE {
          return Error;
        } else if kind == OVERRUN_MESSAGE {
          return BufferTooSmall;
        } else if kind == DONE_MESSAGE {
          return Done;
        } else if kind == NEW_ADDRESS || kind == DELETED_ADDRESS {
          var found := ParseAddress(first + HEADER_SIZE, last);
          if found.Some? {
            ghost var before := handled;
            ghost var d := Detect(env, kind == NEW_ADDRESS, found.value, known);
            known := HandleDetected(kind == NEW_ADDRESS, found.value, known);
            ghost var rest := Parse(env, s[length..], known);
            assert before + (d.events + rest.events) == handled + rest.events;
          }
        }
        WholeWords(last - first, length);
        first := first + length;
      }
      EmptyBuffer(env, recvBuffer[first..last], known);
      return ExpectMore;
    }

    method ReadHeader(first: nat, last: nat) returns (length: nat, kind: nat)
      requires first + 4 <= last <= recvBuffer.Length
      ensures length == NlAlign(U32(env.littleEndian, recvBuffer[first..last])) && length % 4 == 0
      ensures HEADER_SIZE <= length <= last - first ==> kind == U16(env.littleEndian, recvBuffer[first..last][4..])
    {
      ghost var s := recvBuffer[first..last];
      var le := env.littleEndian;
      assert recvBuffer[first..first + 4] == s[..4] && s[..4] + s[4..] == s;
      FrontNumbers(le, s[..4], s[4..]);
      length := NlAlign(U32(le, recvBuffer[first..first + 4]));
      kind := 0;
      if HEADER_SIZE <= length <= last - first {
        assert recvBuffer[first + 4..first + 6] == s[4..6] && s[4..6] + s[6..] == s[4..];
        FrontNumbers(le, s[4..6], s[6..]);
        kind := U16(le, recvBuffer[first + 4..first + 6]);
      }
    }

    /** One completed read; a buffer that is too small is doubled, and after an error everything is asked for again. */
    method OnRead(bytesRead: nat) returns (status: Status)
      requires bytesRead <= recvBuffer.Length && bytesRead % 4 == 0
      modifies this
      ensures Ends(Parse(env, old(recvBuffer[..bytesRead]), map[]), status, old(handled), handled)
      ensures requests == old(requests) + if status.BufferTooSmall? || status.Error? then 1 else 0
      ensures recvBuffer.Length == old(recvBuffer.Length) * (if status.BufferTooSmall? then 2 else 1)
    {
      status := ParseBuffer(bytesRead);
      if status.BufferTooSmall? {
        recvBuffer := new byte[recvBuffer.Length * 2](_ => 0);
      }
      if status.BufferTooSmall? || status.Error? {
        requests := requests + 1;
      }
    }
  }

  lemma TooShort(env: Env, s: seq<byte>, cache: Cache)
    requires |s| >= 4
    ensures var length := NlAlign(U32(env.littleEndian, s));
            && (length > |s| ==> Parse(env, s, cache) == Outcome(BufferTooSmall, []))
            && (length <= |s| && length < HEADER_SIZE ==> Parse(env, s, cache) == Outcome(Error, []))
  {
  }

  lemma EmptyBuffer(env: Env, s: seq<byte>, cache: Cache)
    requires s == []
    ensures Parse(env, s, cache) == Outcome(ExpectMore, [])
  {
  }
}
