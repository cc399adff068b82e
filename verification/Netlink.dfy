/** Parsing netlink address notifications: src/interface_monitor_linux.cpp. */
module Netlink {
  import opened Basics

  const HEADER_SIZE: nat := 16      // nlmsghdr
  const ADDRESS_SIZE: nat := 8      // ifaddrmsg
  const ATTRIBUTE_HEADER: nat := 4  // rtattr
  const UNSIGNED: nat := 0x1_0000_0000

  const ERROR_MESSAGE: nat := 2
  const DONE_MESSAGE: nat := 3
  const OVERRUN_MESSAGE: nat := 4
  const NEW_ADDRESS: nat := 20
  const DELETED_ADDRESS: nat := 21

  const ADDRESS_ATTRIBUTE: nat := 1
  const LOCAL_ATTRIBUTE: nat := 2
  const LABEL_ATTRIBUTE: nat := 3

  const INET: nat := 2
  const INET6: nat := 10

  // ----- numbers in the byte order of the machine -----

  function U32(le: bool, s: seq<byte>): (n: nat)
    requires |s| >= 4
    ensures n < UNSIGNED
  {
    if le then U16(le, s) + 0x1_0000 * U16(le, s[2..]) else 0x1_0000 * U16(le, s) + U16(le, s[2..])
  }

  /** On a little-endian machine the first byte counts least, on a big-endian one most. */
  lemma ByteOrder(a: byte, b: byte, c: byte, d: byte)
    ensures U16(true, [a, b]) == a + 0x100 * b && U16(false, [a, b]) == 0x100 * a + b
    ensures U32(true, [a, b, c, d]) == a + 0x100 * b + 0x1_0000 * c + 0x100_0000 * d
    ensures U32(false, [a, b, c, d]) == 0x100_0000 * a + 0x1_0000 * b + 0x100 * c + d
  {
    assert [a, b, c, d][2..] == [c, d];
  }

  function RoundUp(n: nat): (r: nat)
    ensures n <= r < n + 4 && r % 4 == 0
  {
    (n + 3) / 4 * 4
  }

  /** NLMSG_ALIGN is computed in 32 bits: the largest lengths wrap around to zero. */
  function NlAlign(n: nat): (r: nat)
    requires n < UNSIGNED
    ensures r % 4 == 0
    ensures n <= UNSIGNED - 4 ==> r == RoundUp(n)
  {
    (n + 3) % UNSIGNED / 4 * 4
  }

  // ----- what the monitor asks the rest of the program and the kernel -----

  datatype Flags = Flags(loopback: bool, multicast: bool)

  datatype Env = Env(littleEndian: bool, enableIPv4: bool, enableIPv6: bool,
                     allowed: seq<byte> -> bool,
                     nameOf: nat -> Option<seq<byte>>,
                     flagsOf: seq<byte> -> Option<Flags>)

  datatype Address = V4(bytes: seq<byte>) | V6(bytes: seq<byte>, scope: nat)

  datatype Event = Added(index: nat, name: seq<byte>, addr: Address) | Removed(index: nat, name: seq<byte>, addr: Address)

  // ----- attributes -----

  /** What the attributes have told so far, or that the cursor left the buffer. */
  datatype Scan = Scan(ifname: Option<seq<byte>>, addr: Option<Address>) | Overrun

  function CString(s: seq<byte>): seq<byte> {
    if s == [] || s[0] == 0 then [] else [s[0]] + CString(s[1..])
  }

  predicate LinkLocal(a: seq<byte>)
    requires |a| >= 2
  {
    a[0] == 0xFE && a[1] / 64 == 2
  }

  datatype Interface = Interface(index: nat, family: nat)

  function Note(env: Env, i: Interface, r: Scan, kind: nat, payload: seq<byte>): (r': Scan)
    requires r.Scan?
    ensures r'.Scan?
  {
    if kind == LABEL_ATTRIBUTE then r.(ifname := Some(CString(payload)))
    else if kind == LOCAL_ATTRIBUTE then
      if i.family == INET && env.enableIPv4 && |payload| >= 4 then r.(addr := Some(V4(payload[..4]))) else r
    else if kind == ADDRESS_ATTRIBUTE then
      if i.family == INET6 && env.enableIPv6 && |payload| >= 16 && LinkLocal(payload)
      then r.(addr := Some(V6(payload[..16], i.index))) else r
    else r
  }

  /** The condition of the loop: RTA_OK. */
  predicate AttributeFits(le: bool, s: seq<byte>) {
    |s| >= ATTRIBUTE_HEADER && ATTRIBUTE_HEADER <= U16(le, s) <= |s|
  }

  /** The attribute loop over `s`, the bytes from the cursor on. */
  function Attributes(env: Env, i: Interface, s: seq<byte>, r: Scan): Scan
    requires r.Scan?
    decreases |s|
  {
    if !AttributeFits(env.littleEndian, s) then r
    else
      var length := U16(env.littleEndian, s);
      var r' := Note(env, i, r, U16(env.littleEndian, s[2..]), s[4..length]);
      if RoundUp(length) > |s| then Overrun else Attributes(env, i, s[RoundUp(length)..], r')
  }

  // ----- messages -----

  datatype Found = Found(index: nat, name: seq<byte>, addr: Address)

  datatype Verdict = Skip | Report(found: Found) | OutOfBounds

  predicate Unwanted(flags: byte) {
    flags / 8 % 16 != 0  // failed, home, deprecated or tentative: bits 3 to 6
  }

  /** The part of parseBuffer after the message header; `s` are the bytes from there on. */
  function Examine(env: Env, s: seq<byte>): Verdict {
    if |s| < ADDRESS_SIZE then Skip
    else if Unwanted(s[2]) then Skip
    else if s[0] != INET && s[0] != INET6 then Skip
    else
      var index := U32(env.littleEndian, s[4..]);
      match Attributes(env, Interface(index, s[0]), s[ADDRESS_SIZE..], Scan(None, None))
      case Overrun => OutOfBounds
      case Scan(ifname, addr) =>
        var name := if ifname.None? && addr.Some? then env.nameOf(index) else ifname;
        if name.None? || addr.None? || !env.allowed(name.value) then Skip
        else Report(Found(index, name.value, addr.value))
  }

  type Cache = map<nat, bool>

  datatype Detected = Detected(events: seq<Event>, cache: Cache)

  function Detect(env: Env, isAdded: bool, f: Found, cache: Cache): Detected {
    if !isAdded then Detected([Removed(f.index, f.name, f.addr)], cache)
    else
      var flags := env.flagsOf(f.name);
      var ignore :=
        if f.index in cache then cache[f.index]
        else if flags.None? then true
        else flags.value.loopback || !flags.value.multicast;
      var cache' := if f.index !in cache && flags.Some? then cache[f.index := ignore] else cache;
      Detected(if ignore then [] else [Added(f.index, f.name, f.addr)], cache')
  }

  datatype Status = Done | ExpectMore | BufferTooSmall | Error | Escaped

  datatype Outcome = Outcome(status: Status, events: seq<Event>)

  /** parseBuffer, from the cursor on; `Escaped` stands for a read outside the buffer. */
  function Parse(env: Env, s: seq<byte>, cache: Cache): Outcome
    decreases |s|
  {
    if s == [] then Outcome(ExpectMore, [])
    else if |s| < 4 then Outcome(BufferTooSmall, [])
    else
      var length := NlAlign(U32(env.littleEndian, s));
      if length > |s| then Outcome(BufferTooSmall, [])
      else if length < HEADER_SIZE then Outcome(Error, [])
      else
        var kind := U16(env.littleEndian, s[4..]);
        if kind == ERROR_MESSAGE then Outcome(Error, [])
        else if kind == OVERRUN_MESSAGE then Outcome(BufferTooSmall, [])
        else if kind == DONE_MESSAGE then Outcome(Done, [])
        else if kind != NEW_ADDRESS && kind != DELETED_ADDRESS then Parse(env, s[length..], cache)
        else
          match Examine(env, s[HEADER_SIZE..])
          case OutOfBounds => Outcome(Escaped, [])
          case Skip => Parse(env, s[length..], cache)
          case Report(f) =>
            var d := Detect(env, kind == NEW_ADDRESS, f, cache);
            var rest := Parse(env, s[length..], d.cache);
            Outcome(rest.status, d.events + rest.events)
  }

  // ----- buffers of whole words never let the cursor out -----

  lemma RoundUpFits(n: nat, size: nat)
    requires n <= size && size % 4 == 0
    ensures RoundUp(n) <= size
  {
  }

  lemma WholeWords(size: int, used: int)
    requires size % 4 == 0 && used % 4 == 0
    ensures (size - used) % 4 == 0
  {
  }

  lemma {:induction false} AttributesStayInside(env: Env, i: Interface, s: seq<byte>, r: Scan)
    requires r.Scan? && |s| % 4 == 0
    ensures Attributes(env, i, s, r).Scan?
    decreases |s|
  {
    if AttributeFits(env.littleEndian, s) {
      var length := U16(env.littleEndian, s);
      RoundUpFits(length, |s|);
      WholeWords(|s|, RoundUp(length));
      hide U16, Note, RoundUp;
      AttributesStayInside(env, i, s[RoundUp(length)..],
                           Note(env, i, r, U16(env.littleEndian, s[2..]), s[4..length]));
    }
  }

  lemma ExamineStaysInside(env: Env, s: seq<byte>)
    requires |s| % 4 == 0
    ensures !Examine(env, s).OutOfBounds?
  {
    if |s| >= ADDRESS_SIZE {
      AttributesStayInside(env, Interface(U32(env.littleEndian, s[4..]), s[0]), s[ADDRESS_SIZE..], Scan(None, None));
    }
  }

  lemma {:induction false} ParseStaysInside(env: Env, s: seq<byte>, cache: Cache)
    requires |s| % 4 == 0
    ensures !Parse(env, s, cache).status.Escaped?
    decreases |s|
  {
    hide Examine, Detect, U16, U32;
    if |s| >= 4 {
      var length := NlAlign(U32(env.littleEndian, s));
      if HEADER_SIZE <= length <= |s| {
        var verdict := Examine(env, s[HEADER_SIZE..]);
        ExamineStaysInside(env, s[HEADER_SIZE..]);
        ParseStaysInside(env, s[length..], cache);
        if verdict.Report? {
          var isNew := U16(env.littleEndian, s[4..]) == NEW_ADDRESS;
          ParseStaysInside(env, s[length..], Detect(env, isNew, verdict.found, cache).cache);
        }
      }
    }
  }

  // ----- messages laid end to end -----

  /** The attributes fill `s` exactly, each with its padding. */
  ghost predicate Tiles(le: bool, s: seq<byte>)
    decreases |s|
  {
    s == [] ||
    (AttributeFits(le, s) && RoundUp(U16(le, s)) <= |s| && Tiles(le, s[RoundUp(U16(le, s))..]))
  }

  /** A whole message with its padding, shorter than 65536; an address message is tiled by its attributes. */
  ghost predicate Message(le: bool, m: seq<byte>) {
    && |m| >= HEADER_SIZE
    && HEADER_SIZE <= U32(le, m) < 0x1_0000 && RoundUp(U32(le, m)) == |m|
    && (U16(le, m[4..]) == NEW_ADDRESS || U16(le, m[4..]) == DELETED_ADDRESS ==>
          |m| >= HEADER_SIZE + ADDRESS_SIZE && Tiles(le, m[HEADER_SIZE + ADDRESS_SIZE..]))
  }

  lemma FrontNumbers(le: bool, m: seq<byte>, rest: seq<byte>)
    ensures |m| >= 2 ==> U16(le, m + rest) == U16(le, m)
    ensures |m| >= 4 ==> U32(le, m + rest) == U32(le, m)
  {
    if |m| >= 4 {
      assert (m + rest)[2..][..2] == m[2..][..2];
    }
  }

  lemma SuffixOver(m: seq<byte>, rest: seq<byte>, k: nat)
    requires k <= |m|
    ensures (m + rest)[k..] == m[k..] + rest
  {
  }

  lemma FrontNumbersAt(le: bool, m: seq<byte>, rest: seq<byte>, k: nat)
    requires k <= |m|
    ensures k + 2 <= |m| ==> U16(le, (m + rest)[k..]) == U16(le, m[k..])
    ensures k + 4 <= |m| ==> U32(le, (m + rest)[k..]) == U32(le, m[k..])
  {
    SuffixOver(m, rest, k);
    FrontNumbers(le, m[k..], rest);
  }

  /**
   Past its own message the attribute loop sees the next message header: on a little-endian
   machine as one attribute of type 0 that covers the whole message, on a big-endian one as
   an attribute that is too short.
   */
  lemma {:induction false} AttributesOverMessages(env: Env, i: Interface, ms: seq<seq<byte>>, r: Scan)
    requires r.Scan? && forall m :: m in ms ==> Message(env.littleEndian, m)
    ensures Attributes(env, i, Flatten(ms), r) == r
    decreases |ms|
  {
    if ms != [] {
      var le, m, rest := env.littleEndian, ms[0], Flatten(ms[1..]);
      assert m in ms;
      var s := m + rest;
      FrontNumbers(le, m, rest);
      assert s[2..] == m[2..] + rest;
      FrontNumbers(le, m[2..], rest);
      if le {
        assert U16(le, s) == U32(le, m) && U16(le, s[2..]) == 0;
        assert s[|m|..] == rest;
        AttributesOverMessages(env, i, ms[1..], r);
      }
    }
  }

  /** So an address message yields the same whether or not other messages follow it. */
  lemma {:induction false} AttributesConfined(env: Env, i: Interface, own: seq<byte>, ms: seq<seq<byte>>, r: Scan)
    requires r.Scan? && Tiles(env.littleEndian, own)
    requires forall m :: m in ms ==> Message(env.littleEndian, m)
    ensures Attributes(env, i, own + Flatten(ms), r) == Attributes(env, i, own, r)
    decreases |own|
  {
    var le, rest := env.littleEndian, Flatten(ms);
    if own == [] {
      assert own + rest == rest;
      AttributesOverMessages(env, i, ms, r);
    } else {
      var n := U16(le, own);
      hide U16, U32, Note, Message;
      FrontNumbers(le, own, rest);
      FrontNumbersAt(le, own, rest, 2);
      assert (own + rest)[4..n] == own[4..n];
      SuffixOver(own, rest, RoundUp(n));
      AttributesConfined(env, i, own[RoundUp(n)..], ms, Note(env, i, r, U16(le, own[2..]), own[4..n]));
    }
  }

  // ----- the buffer, message by message -----

  /** A message of this kind ends the parsing. */
  predicate Ending(kind: nat) {
    2 <= kind <= 4
  }

  function EndStatus(kind: nat): Status
    requires Ending(kind)
  {
    if kind == 2 then Error else if kind == 3 then Done else BufferTooSmall
  }

  /** What a buffer must yield: every message looked at alone, up to the first that ends the parsing. */
  ghost function Expected(env: Env, ms: seq<seq<byte>>, cache: Cache): Outcome
    requires forall m :: m in ms ==> Message(env.littleEndian, m)
    decreases |ms|
  {
    if ms == [] then Outcome(ExpectMore, [])
    else
      assert ms[0] in ms && Message(env.littleEndian, ms[0]);
      var kind := U16(env.littleEndian, ms[0][4..]);
      if Ending(kind) then Outcome(EndStatus(kind), [])
      else if kind != NEW_ADDRESS && kind != DELETED_ADDRESS then Expected(env, ms[1..], cache)
      else
        match Examine(env, ms[0][HEADER_SIZE..])
        case OutOfBounds => Outcome(Escaped, [])
        case Skip => Expected(env, ms[1..], cache)
        case Report(f) =>
          var d := Detect(env, kind == NEW_ADDRESS, f, cache);
          var rest := Expected(env, ms[1..], d.cache);
          Outcome(rest.status, d.events + rest.events)
  }

  lemma ExamineOver(env: Env, own: seq<byte>, rest: seq<byte>)
    requires |own| >= ADDRESS_SIZE
    requires var i := Interface(U32(env.littleEndian, own[4..]), own[0]);
             Attributes(env, i, own[ADDRESS_SIZE..] + rest, Scan(None, None)) ==
             Attributes(env, i, own[ADDRESS_SIZE..], Scan(None, None))
    ensures Examine(env, own + rest) == Examine(env, own)
  {
    hide U32, Attributes, Unwanted;
    SuffixOver(own, rest, ADDRESS_SIZE);
    FrontNumbersAt(env.littleEndian, own, rest, 4);
  }

  lemma ExamineConfined(env: Env, m: seq<byte>, ms: seq<seq<byte>>)
    requires Message(env.littleEndian, m) && forall n :: n in ms ==> Message(env.littleEndian, n)
    requires var kind := U16(env.littleEndian, m[4..]); kind == NEW_ADDRESS || kind == DELETED_ADDRESS
    ensures Examine(env, m[HEADER_SIZE..] + Flatten(ms)) == Examine(env, m[HEADER_SIZE..])
  {
    var own := m[HEADER_SIZE..];
    assert own[ADDRESS_SIZE..] == m[HEADER_SIZE + ADDRESS_SIZE..];
    hide Examine, U32, Attributes, Tiles, Flatten;
    var i := Interface(U32(env.littleEndian, own[4..]), own[0]);
    AttributesConfined(env, i, own[ADDRESS_SIZE..], ms, Scan(None, None));
    ExamineOver(env, own, Flatten(ms));
  }

  /** A verdict on the message at the front, then the rest of the buffer. */
  ghost function AfterVerdict(env: Env, verdict: Verdict, isNew: bool, rest: seq<byte>, cache: Cache): Outcome {
    match verdict
    case OutOfBounds => Outcome(Escaped, [])
    case Skip => Parse(env, rest, cache)
    case Report(f) =>
      var d := Detect(env, isNew, f, cache);
      var later := Parse(env, rest, d.cache);
      Outcome(later.status, d.events + later.events)
  }

  lemma ParseOver(env: Env, m: seq<byte>, rest: seq<byte>, cache: Cache)
    requires Message(env.littleEndian, m)
    ensures var kind := U16(env.littleEndian, m[4..]);
            Parse(env, m + rest, cache) ==
            if Ending(kind) then Outcome(EndStatus(kind), [])
            else if kind != NEW_ADDRESS && kind != DELETED_ADDRESS then Parse(env, rest, cache)
            else AfterVerdict(env, Examine(env, m[HEADER_SIZE..] + rest), kind == NEW_ADDRESS, rest, cache)
  {
    var le := env.littleEndian;
    assert HEADER_SIZE <= |m| == NlAlign(U32(le, m));
    hide U16, U32, NlAlign, Examine, Detect, Message;
    FrontNumbers(le, m, rest);
    FrontNumbersAt(le, m, rest, 4);
    SuffixOver(m, rest, HEADER_SIZE);
    SuffixOver(m, rest, |m|);
    assert (m + rest)[|m|..] == rest;
  }

  /** Parsing a buffer of messages laid end to end is looking at each of them alone. */
  lemma {:induction false} ParseIsExpected(env: Env, ms: seq<seq<byte>>, cache: Cache)
    requires forall m :: m in ms ==> Message(env.littleEndian, m)
    ensures Parse(env, Flatten(ms), cache) == Expected(env, ms, cache)
    decreases |ms|
  {
    if ms != [] {
      hide Parse, Message, Examine, Detect, U16;
      var m, rest := ms[0], Flatten(ms[1..]);
      assert m in ms;
      assert |m| >= HEADER_SIZE by { LongEnough(env.littleEndian, m); }
      var kind := U16(env.littleEndian, m[4..]);
      ParseOver(env, m, rest, cache);
      ParseIsExpected(env, ms[1..], cache);
      if kind == NEW_ADDRESS || kind == DELETED_ADDRESS {
        ExamineConfined(env, m, ms[1..]);
        var verdict := Examine(env, m[HEADER_SIZE..]);
        if verdict.Report? {
          ParseIsExpected(env, ms[1..], Detect(env, kind == NEW_ADDRESS, verdict.found, cache).cache);
        }
      }
    }
  }

  lemma LongEnough(le: bool, m: seq<byte>)
    requires Message(le, m)
    ensures |m| >= HEADER_SIZE
  {
  }

  lemma {:induction false} ExpectedEnds(env: Env, before: seq<seq<byte>>, m: seq<byte>, after: seq<seq<byte>>, cache: Cache)
    requires forall n :: n in before + [m] + after ==> Message(env.littleEndian, n)
    requires |m| >= HEADER_SIZE && Ending(U16(env.littleEndian, m[4..]))
    ensures forall n :: n in before + [m] ==> Message(env.littleEndian, n)
    ensures Expected(env, before + [m] + after, cache) == Expected(env, before + [m], cache)
    decreases |before|
  {
    hide Message, Examine, Detect, U16;
    var all := before + [m] + after;
    assert forall n :: n in before + [m] ==> n in all;
    if before != [] {
      var first, rest := before[0], before[1..];
      assert all[1..] == rest + [m] + after && (before + [m])[1..] == rest + [m];
      assert forall n :: n in rest + [m] + after ==> n in all;
      assert |first| >= HEADER_SIZE by { assert first in all; LongEnough(env.littleEndian, first); }
      ExpectedEnds(env, rest, m, after, cache);
      var verdict := Examine(env, first[HEADER_SIZE..]);
      if verdict.Report? {
        var isNew := U16(env.littleEndian, first[4..]) == NEW_ADDRESS;
        ExpectedEnds(env, rest, m, after, Detect(env, isNew, verdict.found, cache).cache);
      }
    }
  }

  /** A done, error or overrun message ends the parsing wherever it is: what follows it changes nothing. */
  lemma EndsAtDone(env: Env, before: seq<seq<byte>>, m: seq<byte>, after: seq<seq<byte>>, cache: Cache)
    requires forall n :: n in before + [m] + after ==> Message(env.littleEndian, n)
    requires |m| >= HEADER_SIZE && Ending(U16(env.littleEndian, m[4..]))
    ensures Parse(env, Flatten(before + [m] + after), cache) == Parse(env, Flatten(before + [m]), cache)
  {
    ExpectedEnds(env, before, m, after, cache);
    ParseIsExpected(env, before + [m] + after, cache);
    ParseIsExpected(env, before + [m], cache);
  }

  // ----- messages that say what they mean -----

  function Put16(le: bool, n: nat): seq<byte>
    requires n < 0x1_0000
  {
    if le then [n % 256, n / 256] else [n / 256, n % 256]
  }

  function Put32(le: bool, n: nat): seq<byte>
    requires n < UNSIGNED
  {
    if le then Put16(le, n % 0x1_0000) + Put16(le, n / 0x1_0000) else Put16(le, n / 0x1_0000) + Put16(le, n % 0x1_0000)
  }

  datatype Attribute = Attribute(kind: nat, payload: seq<byte>)

  /** `other` are the header fields the parser does not look at. */
  datatype AddressMessage = AddressMessage(isNew: bool, other: seq<byte>, family: byte, prefix: byte, flags: byte,
                                           scope: byte, index: nat, attributes: seq<Attribute>)

  ghost predicate ValidAttribute(a: Attribute) {
    a.kind < 0x1_0000 && |a.payload| < 0x1_0000 - ATTRIBUTE_HEADER
  }

  ghost predicate ValidAddressMessage(a: AddressMessage) {
    && |a.other| == 10 && a.index < UNSIGNED
    && (forall x :: x in a.attributes ==> ValidAttribute(x))
    && HEADER_SIZE + ADDRESS_SIZE + AttributesSize(a.attributes) < 0x1_0000
  }

  function AttributesSize(attributes: seq<Attribute>): (r: nat)
    ensures r % 4 == 0
  {
    if attributes == [] then 0
    else RoundUp(ATTRIBUTE_HEADER + |attributes[0].payload|) + AttributesSize(attributes[1..])
  }

  ghost function PrintAttribute(le: bool, a: Attribute): seq<byte>
    requires ValidAttribute(a)
  {
    var n := ATTRIBUTE_HEADER + |a.payload|;
    Put16(le, n) + Put16(le, a.kind) + a.payload + seq(RoundUp(n) - n, _ => 0)
  }

  ghost function PrintAttributes(le: bool, attributes: seq<Attribute>): seq<byte>
    requires forall x :: x in attributes ==> ValidAttribute(x)
  {
    if attributes == [] then []
    else
      assert attributes[0] in attributes;
      PrintAttribute(le, attributes[0]) + PrintAttributes(le, attributes[1..])
  }

  ghost function PrintHeader(le: bool, a: AddressMessage): seq<byte>
    requires ValidAddressMessage(a)
  {
    Put32(le, HEADER_SIZE + ADDRESS_SIZE + AttributesSize(a.attributes)) +
    Put16(le, if a.isNew then 20 else 21) + a.other
  }

  ghost function PrintAddress(le: bool, a: AddressMessage): seq<byte>
    requires ValidAddressMessage(a)
  {
    [a.family, a.prefix, a.flags, a.scope] + Put32(le, a.index)
  }

  ghost function Print(le: bool, a: AddressMessage): seq<byte>
    requires ValidAddressMessage(a)
  {
    PrintHeader(le, a) + (PrintAddress(le, a) + PrintAttributes(le, a.attributes))
  }

  function Noted(env: Env, i: Interface, attributes: seq<Attribute>, r: Scan): (r': Scan)
    requires r.Scan?
    ensures r'.Scan?
    decreases |attributes|
  {
    if attributes == [] then r
    else Noted(env, i, attributes[1..], Note(env, i, r, attributes[0].kind, attributes[0].payload))
  }

  /** What an address message reports. */
  function Meaning(env: Env, a: AddressMessage): Option<Found> {
    var r := Noted(env, Interface(a.index, a.family), a.attributes, Scan(None, None));
    var name := if r.ifname.None? && r.addr.Some? then env.nameOf(a.index) else r.ifname;
    if Unwanted(a.flags) || (a.family != INET && a.family != INET6) || name.None? || r.addr.None? || !env.allowed(name.value)
    then None
    else Some(Found(a.index, name.value, r.addr.value))
  }

  lemma GetPut16(le: bool, n: nat, rest: seq<byte>)
    requires n < 0x1_0000
    ensures U16(le, Put16(le, n) + rest) == n
  {
  }

  lemma GetPut32(le: bool, n: nat, rest: seq<byte>)
    requires n < UNSIGNED
    ensures U32(le, Put32(le, n) + rest) == n
  {
    var hi, lo := n / 0x1_0000, n % 0x1_0000;
    var first, second := if le then lo else hi, if le then hi else lo;
    var s := Put32(le, n) + rest;
    assert s == Put16(le, first) + (Put16(le, second) + rest);
    GetPut16(le, first, Put16(le, second) + rest);
    assert s[2..] == Put16(le, second) + rest;
    GetPut16(le, second, rest);
  }

  lemma PrintedAttribute(le: bool, a: Attribute, rest: seq<byte>)
    requires ValidAttribute(a)
    ensures var n := ATTRIBUTE_HEADER + |a.payload|; var s := PrintAttribute(le, a) + rest;
            && |PrintAttribute(le, a)| == RoundUp(n) && AttributeFits(le, s)
            && U16(le, s) == n && U16(le, s[2..]) == a.kind && s[4..n] == a.payload && s[RoundUp(n)..] == rest
  {
    var n := ATTRIBUTE_HEADER + |a.payload|;
    var tail := a.payload + (seq(RoundUp(n) - n, _ => 0) + rest);
    var s := PrintAttribute(le, a) + rest;
    assert s == Put16(le, n) + (Put16(le, a.kind) + tail);
    GetPut16(le, n, Put16(le, a.kind) + tail);
    assert s[2..] == Put16(le, a.kind) + tail;
    GetPut16(le, a.kind, tail);
    assert s[4..] == tail;
  }

  lemma {:induction false} PrintedAttributes(env: Env, i: Interface, attributes: seq<Attribute>, r: Scan)
    requires r.Scan? && forall x :: x in attributes ==> ValidAttribute(x)
    ensures var s := PrintAttributes(env.littleEndian, attributes);
            && |s| == AttributesSize(attributes) && Tiles(env.littleEndian, s)
            && Attributes(env, i, s, r) == Noted(env, i, attributes, r)
    decreases |attributes|
  {
    if attributes != [] {
      hide PrintAttribute, U16, Note, AttributeFits;
      var le, a, others := env.littleEndian, attributes[0], attributes[1..];
      assert a in attributes;
      PrintedAttributes(env, i, others, Note(env, i, r, a.kind, a.payload));
      PrintedAttribute(le, a, PrintAttributes(le, others));
      assert PrintAttributes(le, attributes) == PrintAttribute(le, a) + PrintAttributes(le, others);
    }
  }

  lemma PrintedHeader(le: bool, a: AddressMessage, body: seq<byte>)
    requires ValidAddressMessage(a)
    ensures var m := PrintHeader(le, a) + body;
            && |PrintHeader(le, a)| == HEADER_SIZE && m[HEADER_SIZE..] == body
            && U32(le, m) == HEADER_SIZE + ADDRESS_SIZE + AttributesSize(a.attributes)
            && U16(le, m[4..]) == if a.isNew then NEW_ADDRESS else DELETED_ADDRESS
  {
    var total := HEADER_SIZE + ADDRESS_SIZE + AttributesSize(a.attributes);
    var kind := if a.isNew then NEW_ADDRESS else DELETED_ADDRESS;
    var m := PrintHeader(le, a) + body;
    assert m == Put32(le, total) + (Put16(le, kind) + (a.other + body));
    GetPut32(le, total, Put16(le, kind) + (a.other + body));
    assert m[4..] == Put16(le, kind) + (a.other + body);
    GetPut16(le, kind, a.other + body);
  }

  lemma PrintedAddress(le: bool, a: AddressMessage, attributes: seq<byte>)
    requires ValidAddressMessage(a)
    ensures var body := PrintAddress(le, a) + attributes;
            && |PrintAddress(le, a)| == ADDRESS_SIZE && body[ADDRESS_SIZE..] == attributes
            && body[0] == a.family && body[2] == a.flags && U32(le, body[4..]) == a.index
  {
    var body := PrintAddress(le, a) + attributes;
    assert body[4..] == Put32(le, a.index) + attributes;
    GetPut32(le, a.index, attributes);
  }

  // ----- the meaning by positions in the attribute list -----

  /** Bits 3 to 6 of the flags: duplicate detection failed, home, deprecated, tentative. */
  ghost predicate Bit(flags: byte, weight: nat)
    requires weight > 0
  {
    flags / weight % 2 == 1
  }

  /** An IPv4 address comes from a local-address attribute, a link-local IPv6 address from an address attribute. */
  ghost predicate Gives(env: Env, i: Interface, x: Attribute) {
    if i.family == 2 then env.enableIPv4 && x.kind == 2 && |x.payload| >= 4
    else
      && i.family == 10 && env.enableIPv6 && x.kind == 1 && |x.payload| >= 16
      && x.payload[0] == 0xFE && 0x80 <= x.payload[1] <= 0xBF
  }

  ghost function Given(i: Interface, x: Attribute): Address
    requires |x.payload| >= if i.family == 2 then 4 else 16
  {
    if i.family == 2 then V4(x.payload[..4]) else V6(x.payload[..16], i.index)
  }

  /** The attribute at `j` is the last one that gives an address. */
  ghost predicate LastGiving(env: Env, i: Interface, attributes: seq<Attribute>, j: int) {
    0 <= j < |attributes| && Gives(env, i, attributes[j]) && forall k :: j < k < |attributes| ==> !Gives(env, i, attributes[k])
  }

  ghost predicate LastLabel(attributes: seq<Attribute>, j: int) {
    0 <= j < |attributes| && attributes[j].kind == 3 && forall k :: j < k < |attributes| ==> attributes[k].kind != 3
  }

  /** `name` is `payload` up to its first NUL. */
  ghost predicate UpToNul(payload: seq<byte>, name: seq<byte>) {
    name <= payload && 0 !in name && (name == payload || payload[|name|] == 0)
  }

  lemma {:induction false} CStringIff(payload: seq<byte>, name: seq<byte>)
    ensures CString(payload) == name <==> UpToNul(payload, name)
  {
    if payload != [] && payload[0] != 0 {
      if name != [] {
        assert name == [name[0]] + name[1..];
        assert payload == [payload[0]] + payload[1..];
        CStringIff(payload[1..], name[1..]);
        assert name <= payload <==> name[0] == payload[0] && name[1..] <= payload[1..];
      }
    }
  }

  lemma NoteGives(env: Env, i: Interface, r: Scan, x: Attribute)
    requires r.Scan?
    ensures Note(env, i, r, x.kind, x.payload).addr == if Gives(env, i, x) then Some(Given(i, x)) else r.addr
    ensures Note(env, i, r, x.kind, x.payload).ifname == if x.kind == 3 then Some(CString(x.payload)) else r.ifname
  {
  }

  lemma {:induction false} NotedAddress(env: Env, i: Interface, attributes: seq<Attribute>, r: Scan) returns (j: int)
    requires r.Scan?
    ensures var addr := Noted(env, i, attributes, r).addr;
            if LastGiving(env, i, attributes, j) then addr == Some(Given(i, attributes[j]))
            else addr == r.addr && forall k :: 0 <= k < |attributes| ==> !Gives(env, i, attributes[k])
    decreases |attributes|
  {
    hide Note, Gives, Given;
    j := -1;
    if attributes != [] {
      var first, others := attributes[0], attributes[1..];
      NoteGives(env, i, r, first);
      j := NotedAddress(env, i, others, Note(env, i, r, first.kind, first.payload));
      j := if LastGiving(env, i, others, j) then j + 1 else 0;
      assert forall k :: 0 < k < |attributes| ==> attributes[k] == others[k - 1];
    }
  }

  lemma {:induction false} NotedName(env: Env, i: Interface, attributes: seq<Attribute>, r: Scan) returns (j: int)
    requires r.Scan?
    ensures var ifname := Noted(env, i, attributes, r).ifname;
            if LastLabel(attributes, j) then ifname == Some(CString(attributes[j].payload))
            else ifname == r.ifname && forall k :: 0 <= k < |attributes| ==> attributes[k].kind != 3
    decreases |attributes|
  {
    hide Note, Gives, Given, CString;
    j := -1;
    if attributes != [] {
      var first, others := attributes[0], attributes[1..];
      NoteGives(env, i, r, first);
      j := NotedName(env, i, others, Note(env, i, r, first.kind, first.payload));
      j := if LastLabel(others, j) then j + 1 else 0;
      assert forall k :: 0 < k < |attributes| ==> attributes[k] == others[k - 1];
    }
  }

  /** What an address message reports, said without the scan. */
  ghost predicate Says(env: Env, a: AddressMessage, f: Found) {
    var i := Interface(a.index, a.family);
    && !Bit(a.flags, 8) && !Bit(a.flags, 16) && !Bit(a.flags, 32) && !Bit(a.flags, 64)
    && f.index == a.index
    && (exists j :: LastGiving(env, i, a.attributes, j) && f.addr == Given(i, a.attributes[j]))
    && (if exists j :: LastLabel(a.attributes, j)
        then exists j :: LastLabel(a.attributes, j) && UpToNul(a.attributes[j].payload, f.name)
        else env.nameOf(a.index) == Some(f.name))
    && env.allowed(f.name)
  }

  lemma UnwantedIff(flags: byte)
    ensures Unwanted(flags) <==> Bit(flags, 8) || Bit(flags, 16) || Bit(flags, 32) || Bit(flags, 64)
  {
  }

  /** The address is that of the last attribute that gives one, the name the last label or the interface's own. */
  lemma MeaningIff(env: Env, a: AddressMessage, f: Found)
    ensures Meaning(env, a) == Some(f) <==> Says(env, a, f)
  {
    var i := Interface(a.index, a.family);
    UnwantedIff(a.flags);
    var j := NotedAddress(env, i, a.attributes, Scan(None, None));
    var k := NotedName(env, i, a.attributes, Scan(None, None));
    if LastLabel(a.attributes, k) {
      CStringIff(a.attributes[k].payload, f.name);
    }
    hide Noted, Unwanted, Bit, CString, UpToNul, Given;
    assert forall n :: LastGiving(env, i, a.attributes, n) ==> n == j;
    assert forall n :: LastLabel(a.attributes, n) ==> n == k;
  }

  lemma ExamineRead(env: Env, own: seq<byte>, a: AddressMessage)
    requires |own| >= ADDRESS_SIZE && own[0] == a.family && own[2] == a.flags && U32(env.littleEndian, own[4..]) == a.index
    requires var i := Interface(a.index, a.family);
             Attributes(env, i, own[ADDRESS_SIZE..], Scan(None, None)) == Noted(env, i, a.attributes, Scan(None, None))
    ensures Examine(env, own) == match Meaning(env, a) case None => Skip case Some(f) => Report(f)
  {
    hide U32, Attributes, Noted, Unwanted;
  }

  /** A printed address message is a message, and looking at it alone gives its meaning. */
  lemma PrintedMeaning(env: Env, a: AddressMessage)
    requires ValidAddressMessage(a)
    ensures var m := Print(env.littleEndian, a);
            && Message(env.littleEndian, m)
            && U16(env.littleEndian, m[4..]) == (if a.isNew then NEW_ADDRESS else DELETED_ADDRESS)
            && Examine(env, m[HEADER_SIZE..]) == match Meaning(env, a) case None => Skip case Some(f) => Report(f)
  {
    hide PrintHeader, PrintAddress, U16, U32, Put16, Put32, Tiles, Attributes, Noted, Unwanted, Examine, Meaning;
    var le, m := env.littleEndian, Print(env.littleEndian, a);
    var attributes := PrintAttributes(le, a.attributes);
    var body := PrintAddress(le, a) + attributes;
    PrintedAttributes(env, Interface(a.index, a.family), a.attributes, Scan(None, None));
    PrintedHeader(le, a, body);
    PrintedAddress(le, a, attributes);
    ExamineRead(env, body, a);
    SkipTwo(PrintHeader(le, a), PrintAddress(le, a), attributes);
  }

  lemma SkipTwo(a: seq<byte>, b: seq<byte>, c: seq<byte>)
    ensures (a + (b + c))[|a| + |b|..] == c
  {
  }

  /** Looking at a printed address message reports what it says, and nothing when it says nothing. */
  lemma PrintedMessage(env: Env, a: AddressMessage)
    requires ValidAddressMessage(a)
    ensures Message(env.littleEndian, Print(env.littleEndian, a))
    ensures var verdict := Examine(env, Print(env.littleEndian, a)[HEADER_SIZE..]);
            !verdict.OutOfBounds? && forall f :: verdict == Report(f) <==> Says(env, a, f)
  {
    PrintedMeaning(env, a);
    hide Print, Message, Examine, Meaning, Says;
    forall f
      ensures Meaning(env, a) == Some(f) <==> Says(env, a, f)
    {
      MeaningIff(env, a, f);
    }
  }

  /** What a buffer holds: address messages, and messages of kinds that are passed over. */
  datatype Notice = Address(message: AddressMessage) | Other(bytes: seq<byte>)

  ghost predicate ValidNotice(le: bool, n: Notice) {
    match n
    case Address(a) => ValidAddressMessage(a)
    case Other(m) =>
      Message(le, m) && var kind := U16(le, m[4..]); !Ending(kind) && kind != NEW_ADDRESS && kind != DELETED_ADDRESS
  }

  ghost function PrintNotice(le: bool, n: Notice): seq<byte>
    requires ValidNotice(le, n)
  {
    match n
    case Address(a) => Print(le, a)
    case Other(m) => m
  }

  ghost function PrintAll(le: bool, list: seq<Notice>): seq<seq<byte>>
    requires forall n :: n in list ==> ValidNotice(le, n)
  {
    if list == [] then []
    else
      assert list[0] in list;
      [PrintNotice(le, list[0])] + PrintAll(le, list[1..])
  }

  predicate Usable(flags: Option<Flags>) {
    flags.Some? && !flags.value.loopback && flags.value.multicast
  }

  function Told(env: Env, n: Notice): Option<Found> {
    match n
    case Address(a) => Meaning(env, a)
    case Other(_) => None
  }

  /** What one message makes known: an address removed, or one added on a usable interface. */
  function Shown(env: Env, n: Notice): seq<Event> {
    match Told(env, n)
    case None => []
    case Some(f) =>
      if !n.message.isNew then [Removed(f.index, f.name, f.addr)]
      else if Usable(env.flagsOf(f.name)) then [Added(f.index, f.name, f.addr)]
      else []
  }

  function Events(env: Env, list: seq<Notice>): seq<Event> {
    if list == [] then [] else Shown(env, list[0]) + Events(env, list[1..])
  }

  /** Which event a message makes known: a removal always, an addition only on a multicast interface that is no loopback. */
  lemma ShownIff(env: Env, n: Notice, f: Found)
    requires n.Address? && Says(env, n.message, f)
    ensures !n.message.isNew ==> Shown(env, n) == [Removed(f.index, f.name, f.addr)]
    ensures n.message.isNew ==>
              Shown(env, n) ==
              match env.flagsOf(f.name)
              case Some(Flags(false, true)) => [Added(f.index, f.name, f.addr)]
              case _ => []
  {
    MeaningIff(env, n.message, f);
    hide Says, Meaning;
  }

  lemma NothingShown(env: Env, n: Notice)
    requires n.Address? ==> forall f :: !Says(env, n.message, f)
    ensures Shown(env, n) == []
  {
    if n.Address? && Meaning(env, n.message).Some? {
      MeaningIff(env, n.message, Meaning(env, n.message).value);
    }
  }

  /** The flags are those of the interface, whatever name a message gives it. */
  ghost predicate FlagsByIndex(env: Env, list: seq<Notice>, flags: nat -> Option<Flags>) {
    forall n :: n in list && Told(env, n).Some? ==>
      env.flagsOf(Told(env, n).value.name) == flags(Told(env, n).value.index)
  }

  ghost predicate CacheRight(cache: Cache, flags: nat -> Option<Flags>) {
    forall i :: i in cache ==> flags(i).Some? && cache[i] == !Usable(flags(i))
  }

  lemma DetectIsUncached(env: Env, isNew: bool, f: Found, cache: Cache, flags: nat -> Option<Flags>)
    requires CacheRight(cache, flags) && env.flagsOf(f.name) == flags(f.index)
    ensures var d := Detect(env, isNew, f, cache);
            && CacheRight(d.cache, flags)
            && d.events == (if !isNew then [Removed(f.index, f.name, f.addr)]
                            else if Usable(env.flagsOf(f.name)) then [Added(f.index, f.name, f.addr)]
                            else [])
  {
  }

  lemma {:induction false} PrintedAreMessages(le: bool, list: seq<Notice>)
    requires forall n :: n in list ==> ValidNotice(le, n)
    ensures forall m :: m in PrintAll(le, list) ==> Message(le, m)
  {
    if list != [] {
      assert list[0] in list;
      if list[0].Address? {
        PrintedMeaning(Env(le, true, true, _ => true, _ => None, _ => None), list[0].message);
      }
      PrintedAreMessages(le, list[1..]);
    }
  }

  lemma FlagsOfFirst(env: Env, list: seq<Notice>, flags: nat -> Option<Flags>)
    requires FlagsByIndex(env, list, flags) && list != []
    ensures FlagsByIndex(env, list[1..], flags)
    ensures var found := Told(env, list[0]); found.Some? ==> env.flagsOf(found.value.name) == flags(found.value.index)
  {
  }

  /** What the messages of `more` make of the parsing: nothing is expected, or the first one ends it. */
  ghost predicate Final(le: bool, more: seq<seq<byte>>) {
    && (forall m :: m in more ==> Message(le, m))
    && (more != [] ==> |more[0]| >= HEADER_SIZE && Ending(U16(le, more[0][4..])))
  }

  ghost function FinalStatus(le: bool, more: seq<seq<byte>>): Status
    requires Final(le, more)
  {
    if more == [] then ExpectMore else EndStatus(U16(le, more[0][4..]))
  }

  /** The first message shows what it shows, and the rest is looked at with a cache that is still right. */
  lemma PrintedFirst(env: Env, n: Notice, ms: seq<seq<byte>>, cache: Cache, flags: nat -> Option<Flags>)
    returns (cache': Cache)
    requires ValidNotice(env.littleEndian, n) && CacheRight(cache, flags)
    requires forall m :: m in [PrintNotice(env.littleEndian, n)] + ms ==> Message(env.littleEndian, m)
    requires var found := Told(env, n); found.Some? ==> env.flagsOf(found.value.name) == flags(found.value.index)
    ensures CacheRight(cache', flags)
    ensures forall m :: m in ms ==> Message(env.littleEndian, m)
    ensures var rest := Expected(env, ms, cache');
            Expected(env, [PrintNotice(env.littleEndian, n)] + ms, cache) ==
            Outcome(rest.status, Shown(env, n) + rest.events)
  {
    hide Print, Message, Examine, Meaning, U16, ValidAddressMessage, CacheRight, Usable, Detect;
    var all := [PrintNotice(env.littleEndian, n)] + ms;
    assert all[1..] == ms && forall m :: m in ms ==> m in all;
    cache' := cache;
    if n.Address? {
      PrintedMeaning(env, n.message);
      var found := Meaning(env, n.message);
      if found.Some? {
        DetectIsUncached(env, n.message.isNew, found.value, cache, flags);
        cache' := Detect(env, n.message.isNew, found.value, cache).cache;
      }
    }
  }

  lemma {:induction false} PrintedExpected(env: Env, list: seq<Notice>, more: seq<seq<byte>>, cache: Cache,
                                           flags: nat -> Option<Flags>)
    requires forall n :: n in list ==> ValidNotice(env.littleEndian, n)
    requires forall m :: m in PrintAll(env.littleEndian, list) + more ==> Message(env.littleEndian, m)
    requires Final(env.littleEndian, more) && FlagsByIndex(env, list, flags) && CacheRight(cache, flags)
    ensures Expected(env, PrintAll(env.littleEndian, list) + more, cache) ==
            Outcome(FinalStatus(env.littleEndian, more), Events(env, list))
    decreases |list|
  {
    var le := env.littleEndian;
    if list == [] {
      assert PrintAll(le, list) + more == more;
    } else {
      hide Expected, Final, FinalStatus, ValidNotice, PrintNotice, Message, CacheRight, FlagsByIndex, Shown, Told;
      var first, later := list[0], PrintAll(le, list[1..]);
      assert first in list;
      assert PrintAll(le, list) + more == [PrintNotice(le, first)] + (later + more);
      FlagsOfFirst(env, list, flags);
      var cache' := PrintedFirst(env, first, later + more, cache, flags);
      PrintedExpected(env, list[1..], more, cache', flags);
    }
  }

  /**
   A buffer of address messages, with messages of other kinds between them, yields exactly their
   events, in order; remembering the flags changes nothing. A message that ends the parsing decides
   the status, and what follows it is not looked at.
   */
  lemma PrintedBuffer(env: Env, list: seq<Notice>, more: seq<seq<byte>>, flags: nat -> Option<Flags>)
    requires forall n :: n in list ==> ValidNotice(env.littleEndian, n)
    requires Final(env.littleEndian, more) && FlagsByIndex(env, list, flags)
    ensures var ms := PrintAll(env.littleEndian, list) + more;
            Parse(env, Flatten(ms), map[]) == Outcome(FinalStatus(env.littleEndian, more), Events(env, list))
  {
    PrintedAreMessages(env.littleEndian, list);
    PrintedExpected(env, list, more, map[], flags);
    ParseIsExpected(env, PrintAll(env.littleEndian, list) + more, map[]);
  }
}
