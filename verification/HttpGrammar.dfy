/** The language the request parser accepts, and what it makes of a member of it. */
module HttpGrammar {
  import opened Basics
  import opened HttpParser

  /** A request header as text; `minor` is the spelling of the minor version. */
  datatype Message = Message(verb: seq<byte>, uri: seq<byte>, minor: seq<byte>, headers: seq<Header>)

  ghost predicate AllTokens(s: seq<byte>) { forall c :: c in s ==> IsToken(c) }
  ghost predicate AllUri(s: seq<byte>) { forall c :: c in s ==> !IsCtl(c) && c != SP }
  ghost predicate AllText(s: seq<byte>) { forall c :: c in s ==> !IsCtl(c) }
  ghost predicate AllZeros(s: seq<byte>) { forall c :: c in s ==> c == 48 }

  /** `1`, or zeros, or zeros and then one digit from 1 to 9. */
  ghost predicate MinorSpelling(z: seq<byte>) {
    z != [] && (z == [49] || AllZeros(z) || (|z| >= 2 && AllZeros(z[..|z| - 1]) && IsDigit(z[|z| - 1])))
  }

  /** The last digit is the value. */
  ghost function MinorValue(z: seq<byte>): nat {
    if z != [] && IsDigit(z[|z| - 1]) then z[|z| - 1] - 48 else 0
  }

  ghost predicate ValidHeader(h: Header) {
    h.name != [] && AllTokens(h.name) && AllText(h.value)
  }

  ghost function HeadersSize(hs: seq<Header>): nat {
    if hs == [] then 0 else HeadersSize(hs[..|hs| - 1]) + |hs[|hs| - 1].name| + |hs[|hs| - 1].value|
  }

  ghost predicate Valid(m: Message) {
    && 1 <= |m.verb| <= MAX_METHOD && AllTokens(m.verb)
    && 1 <= |m.uri| <= MAX_URI && AllUri(m.uri)
    && MinorSpelling(m.minor)
    && (forall h :: h in m.headers ==> ValidHeader(h))
    && HeadersSize(m.headers) <= MAX_HEADERS
  }

  // ----- the same with every byte and bound listed -----

  /** Letters, digits and these: ! # $ % & ' * + - . ^ _ ` | ~ */
  ghost predicate TokenByte(c: byte) {
    48 <= c <= 57 || 65 <= c <= 90 || 97 <= c <= 122 ||
    c in {33, 35, 36, 37, 38, 39, 42, 43, 45, 46, 94, 95, 96, 124, 126}
  }

  ghost predicate UriByte(c: byte) { 33 <= c <= 126 || 128 <= c }
  ghost predicate TextByte(c: byte) { 32 <= c <= 126 || 128 <= c }

  lemma TokenIff(c: byte)
    ensures IsToken(c) <==> TokenByte(c)
  {
  }

  lemma BytesIff(s: seq<byte>)
    ensures AllTokens(s) <==> forall c :: c in s ==> TokenByte(c)
    ensures AllUri(s) <==> forall c :: c in s ==> UriByte(c)
    ensures AllText(s) <==> forall c :: c in s ==> TextByte(c)
  {
    forall c | c in s
      ensures IsToken(c) <==> TokenByte(c)
    {
      TokenIff(c);
    }
    hide IsToken, TokenByte;
  }

  /** The request headers of the grammar: the method, the URI, the version and the header lines. */
  lemma ValidIff(m: Message)
    ensures Valid(m) <==>
            && 1 <= |m.verb| <= 10 && (forall c :: c in m.verb ==> TokenByte(c))
            && 1 <= |m.uri| <= 2048 && (forall c :: c in m.uri ==> UriByte(c))
            && MinorSpelling(m.minor)
            && (forall h :: h in m.headers ==>
                  h.name != [] && (forall c :: c in h.name ==> TokenByte(c)) && (forall c :: c in h.value ==> TextByte(c)))
            && HeadersSize(m.headers) <= 8192
  {
    hide AllTokens, AllUri, AllText, TokenByte, UriByte, TextByte, MinorSpelling, HeadersSize;
    BytesIff(m.verb);
    BytesIff(m.uri);
    forall h | h in m.headers
      ensures AllTokens(h.name) <==> forall c :: c in h.name ==> TokenByte(c)
      ensures AllText(h.value) <==> forall c :: c in h.value ==> TextByte(c)
    {
      BytesIff(h.name);
      BytesIff(h.value);
    }
  }

  lemma TextAsWritten()
    ensures Spells(HTTP1, "HTTP/1.") && Spells(CRLF, "\r\n") && Spells([COLON, SP], ": ")
    ensures Spells([33, 35, 36, 37, 38, 39, 42, 43, 45, 46, 94, 95, 96, 124, 126], "!#$%&'*+-.^_`|~")
  {
  }

  // ----- printing -----

  const HTTP1: seq<byte> := [72, 84, 84, 80, 47, 49, 46]  // HTTP/1.
  const CRLF: seq<byte> := [CR, LF]

  ghost function PrintHeader(h: Header): seq<byte> {
    h.name + [COLON, SP] + h.value + CRLF
  }

  ghost function PrintHeaders(hs: seq<Header>): seq<byte> {
    if hs == [] then [] else PrintHeaders(hs[..|hs| - 1]) + PrintHeader(hs[|hs| - 1])
  }

  ghost function StartLine(verb: seq<byte>, uri: seq<byte>): seq<byte> {
    verb + [SP] + uri + [SP]
  }

  ghost function Print(m: Message): seq<byte> {
    StartLine(m.verb, m.uri) + HTTP1 + m.minor + CRLF + PrintHeaders(m.headers) + CRLF
  }

  /** The request the parser delivers, when it held the headers `before`. */
  ghost function Delivered(before: seq<Header>, m: Message): Request {
    Request(m.verb, m.uri, 1, MinorValue(m.minor), before + m.headers)
  }

  // ----- every accepted text is a printed message -----

  /** The bytes that led to this state; `hs` are the headers completed and `z` the minor version read so far. */
  ghost function Consumed(p: Parser, rq: Request, hs: seq<Header>, z: seq<byte>): seq<byte> {
    var line := StartLine(rq.verb, rq.uri);
    var lines := line + HTTP1 + z + CRLF + PrintHeaders(hs);
    match p.state
    case MethodStart => []
    case Method => p.verb
    case Uri => rq.verb + [SP] + p.uri
    case VersionH => line
    case VersionT1 => line + HTTP1[..1]
    case VersionT2 => line + HTTP1[..2]
    case VersionP => line + HTTP1[..3]
    case VersionSlash => line + HTTP1[..4]
    case MajorStart => line + HTTP1[..5]
    case Major => line + HTTP1[..6]
    case MinorStart => line + HTTP1
    case Minor => line + HTTP1 + z
    case Newline1 => line + HTTP1 + z + [CR]
    case HeaderLineStart => lines
    case HeaderLws => []
    case HeaderName => lines + p.name
    case SpaceBeforeValue => lines + p.name + [COLON]
    case HeaderValue => lines + p.name + [COLON, SP] + p.value
    case Newline2 => lines + p.name + [COLON, SP] + p.value + [CR]
    case Newline3 => lines + [CR]
  }

  /** What every step keeps, for a parser started fresh on a request that held the headers `before`. */
  ghost predicate Inv(p: Parser, rq: Request, before: seq<Header>, hs: seq<Header>, z: seq<byte>) {
    && rq.headers == before + hs
    && (forall h :: h in hs ==> ValidHeader(h))
    && p.total == HeadersSize(hs) + |p.name| + |p.value| <= MAX_HEADERS
    && p.state != HeaderLws
    && (if p.state.Method? then 1 <= |p.verb| <= MAX_METHOD && AllTokens(p.verb) else p.verb == [])
    && (if p.state.Uri? then |p.uri| <= MAX_URI && AllUri(p.uri) else p.uri == [])
    && (!p.state.MethodStart? && !p.state.Method? ==> 1 <= |rq.verb| <= MAX_METHOD && AllTokens(rq.verb))
    && (InRequestLine(p.state) || InVersion(p.state) ==> hs == [])
    && (InRequestLine(p.state) ==> z == [])
    && (!InRequestLine(p.state) ==> 1 <= |rq.uri| <= MAX_URI && AllUri(rq.uri))
    && (InLetters(p.state) ==> 1 <= |rq.uri| <= MAX_URI && AllUri(rq.uri))
    && (!InRequestLine(p.state) && !p.state.MajorStart? ==> p.major == 1)
    && (p.state.Minor? ==> MinorSpelling(z) && p.minor == MinorValue(z))
    && (p.state.Newline1? || (!InRequestLine(p.state) && !InVersion(p.state)) ==>
          MinorSpelling(z) && rq.major == 1 && rq.minor == MinorValue(z))
    && (if p.state.HeaderName? || p.state.SpaceBeforeValue? || p.state.HeaderValue? || p.state.Newline2?
        then p.name != [] && AllTokens(p.name) && AllText(p.value) else p.name == [] && p.value == [])
    && (p.state.HeaderName? || p.state.SpaceBeforeValue? ==> p.value == [])
  }

  lemma FreshInv(rq: Request)
    ensures Inv(FRESH, rq, rq.headers, [], []) && Consumed(FRESH, rq, [], []) == []
  {
    assert rq.headers + [] == rq.headers;
  }

  lemma ZeroDigit(z: seq<byte>, c: byte)
    requires MinorSpelling(z) && IsDigit(c) && AddDigit(MinorValue(z), c - 48, 1).Some?
    ensures MinorSpelling(z + [c]) && AddDigit(MinorValue(z), c - 48, 1).value == MinorValue(z + [c])
  {
    var t := z + [c];
    assert t[..|t| - 1] == z;
    assert MinorValue(z) == 0;
    assert z[|z| - 1] in z;
    assert z == z[..|z| - 1] + [z[|z| - 1]];
  }

  lemma Literal(line: seq<byte>, k: nat)
    requires k < |HTTP1|
    ensures line + HTTP1[..k] + [HTTP1[k]] == line + HTTP1[..k + 1]
    ensures line + HTTP1[..0] == line && line + HTTP1[..|HTTP1|] == line + HTTP1
  {
  }

  lemma RequestLineKeeps(p: Parser, rq: Request, c: byte, before: seq<Header>)
    requires InRequestLine(p.state)
    requires Inv(p, rq, before, [], []) && Step(p, rq, c).result.Indeterminate?
    ensures var next := Step(p, rq, c);
            && Inv(next.parser, next.request, before, [], [])
            && Consumed(next.parser, next.request, [], []) == Consumed(p, rq, [], []) + [c]
  {
    hide PrintHeaders, HeadersSize, MinorSpelling, MinorValue;
    if InLetters(p.state) {
      LetterKeeps(p, rq, c, before);
    } else if p.state.Uri? {
      assert c == SP || rq.verb + [SP] + p.uri + [c] == rq.verb + [SP] + (p.uri + [c]);
    }
  }

  ghost predicate InLetters(s: State) {
    s.VersionH? || s.VersionT1? || s.VersionT2? || s.VersionP? || s.VersionSlash?
  }

  lemma LetterKeeps(p: Parser, rq: Request, c: byte, before: seq<Header>)
    requires InLetters(p.state)
    requires Inv(p, rq, before, [], []) && Step(p, rq, c).result.Indeterminate?
    ensures var next := Step(p, rq, c);
            && Inv(next.parser, next.request, before, [], [])
            && Consumed(next.parser, next.request, [], []) == Consumed(p, rq, [], []) + [c]
  {
    hide PrintHeaders, HeadersSize, MinorSpelling, MinorValue;
    var line := StartLine(rq.verb, rq.uri);
    match p.state
    case VersionH => Literal(line, 0);
    case VersionT1 => Literal(line, 1);
    case VersionT2 => Literal(line, 2);
    case VersionP => Literal(line, 3);
    case VersionSlash => Literal(line, 4);
  }

  lemma VersionKeeps(p: Parser, rq: Request, c: byte, before: seq<Header>, z: seq<byte>) returns (z': seq<byte>)
    requires InVersion(p.state)
    requires Inv(p, rq, before, [], z) && Step(p, rq, c).result.Indeterminate?
    ensures var next := Step(p, rq, c);
            && Inv(next.parser, next.request, before, [], z')
            && Consumed(next.parser, next.request, [], z') == Consumed(p, rq, [], z) + [c]
  {
    hide StartLine, AllUri, AllTokens, HeadersSize, IsTSpecial;
    z' := z;
    var line := StartLine(rq.verb, rq.uri);
    match p.state
    case MajorStart => Literal(line, 5);
    case Major => Literal(line, 6);
    case MinorStart =>
      z' := [c];
    case Minor =>
      if c == CR {
      } else {
        ZeroDigit(z, c);
        z' := z + [c];
        assert line + HTTP1 + z + [c] == line + HTTP1 + z';
      }
    case Newline1 =>
      var body := line + HTTP1 + z;
      assert body + [CR] + [LF] == body + CRLF + PrintHeaders([]);
  }

  lemma HeaderAdded(body: seq<byte>, printed: seq<byte>, h: Header)
    ensures body + printed + h.name + [COLON, SP] + h.value + [CR] + [LF] == body + (printed + PrintHeader(h))
  {
  }

  lemma NewHeader(before: seq<Header>, hs: seq<Header>, h: Header)
    ensures before + (hs + [h]) == before + hs + [h]
    ensures HeadersSize(hs + [h]) == HeadersSize(hs) + |h.name| + |h.value|
    ensures PrintHeaders(hs + [h]) == PrintHeaders(hs) + PrintHeader(h)
  {
    var all := hs + [h];
    assert all[..|all| - 1] == hs;
  }

  lemma HeaderNameKeeps(p: Parser, rq: Request, c: byte, before: seq<Header>, hs: seq<Header>, z: seq<byte>)
    requires p.state.HeaderLineStart? || p.state.HeaderName?
    requires Inv(p, rq, before, hs, z) && Step(p, rq, c).result.Indeterminate?
    ensures var next := Step(p, rq, c);
            && Inv(next.parser, next.request, before, hs, z)
            && Consumed(next.parser, next.request, hs, z) == Consumed(p, rq, hs, z) + [c]
  {
    hide StartLine, PrintHeaders, HeadersSize, MinorSpelling, MinorValue, IsTSpecial, AllUri, ValidHeader;
    var lines := StartLine(rq.verb, rq.uri) + HTTP1 + z + CRLF + PrintHeaders(hs);
    if p.state.HeaderLineStart? {
      assert [] + [c] == [c];
    } else {
      assert lines + p.name + [c] == lines + (p.name + [c]);
    }
  }

  lemma HeaderTextKeeps(p: Parser, rq: Request, c: byte, before: seq<Header>, hs: seq<Header>, z: seq<byte>)
    requires !InRequestLine(p.state) && !InVersion(p.state) && !p.state.Newline2?
    requires Inv(p, rq, before, hs, z) && Step(p, rq, c).result.Indeterminate?
    ensures var next := Step(p, rq, c);
            && Inv(next.parser, next.request, before, hs, z)
            && Consumed(next.parser, next.request, hs, z) == Consumed(p, rq, hs, z) + [c]
  {
    hide StartLine, PrintHeaders, HeadersSize, MinorSpelling, MinorValue, IsTSpecial, AllUri, ValidHeader;
    var lines := StartLine(rq.verb, rq.uri) + HTTP1 + z + CRLF + PrintHeaders(hs);
    if p.state.HeaderLineStart? || p.state.HeaderName? {
      HeaderNameKeeps(p, rq, c, before, hs, z);
    } else if p.state.SpaceBeforeValue? {
      assert lines + p.name + [COLON] + [SP] == lines + p.name + [COLON, SP] + [];
    } else if p.state.HeaderValue? {
      var head := lines + p.name + [COLON, SP];
      assert head + p.value + [c] == head + (p.value + [c]);
    }
  }

  lemma HeaderEndKeeps(p: Parser, rq: Request, c: byte, before: seq<Header>, hs: seq<Header>, z: seq<byte>)
    returns (hs': seq<Header>)
    requires p.state.Newline2?
    requires Inv(p, rq, before, hs, z) && Step(p, rq, c).result.Indeterminate?
    ensures var next := Step(p, rq, c);
            && Inv(next.parser, next.request, before, hs', z)
            && Consumed(next.parser, next.request, hs', z) == Consumed(p, rq, hs, z) + [c]
  {
    var h := Header(p.name, p.value);
    hs' := hs + [h];
    HeaderAdded(StartLine(rq.verb, rq.uri) + HTTP1 + z + CRLF, PrintHeaders(hs), h);
    NewHeader(before, hs, h);
  }

  /** One undecided step adds its byte to what has been read and keeps the invariant. */
  lemma StepKeeps(p: Parser, rq: Request, c: byte, before: seq<Header>, hs: seq<Header>, z: seq<byte>)
    returns (hs': seq<Header>, z': seq<byte>)
    requires Inv(p, rq, before, hs, z) && Step(p, rq, c).result.Indeterminate?
    ensures var next := Step(p, rq, c);
            && Inv(next.parser, next.request, before, hs', z')
            && Consumed(next.parser, next.request, hs', z') == Consumed(p, rq, hs, z) + [c]
  {
    hs', z' := hs, z;
    if InRequestLine(p.state) {
      RequestLineKeeps(p, rq, c, before);
      z' := [];
    } else if InVersion(p.state) {
      z' := VersionKeeps(p, rq, c, before, z);
    } else if p.state.Newline2? {
      hs' := HeaderEndKeeps(p, rq, c, before, hs, z);
    } else {
      HeaderTextKeeps(p, rq, c, before, hs, z);
    }
  }

  /** What is known of the run once `text` has been read. */
  ghost predicate Outcome(p: Parser, rq: Request, result: Result, text: seq<byte>, before: seq<Header>,
                          hs: seq<Header>, z: seq<byte>)
  {
    match result
    case Indeterminate => Inv(p, rq, before, hs, z) && Consumed(p, rq, hs, z) == text
    case Good =>
      var m := Message(rq.verb, rq.uri, z, hs);
      Valid(m) && text == Print(m) && rq == Delivered(before, m)
    case Bad => true
  }

  lemma StepOutcome(p: Parser, rq: Request, c: byte, text: seq<byte>, before: seq<Header>, hs: seq<Header>, z: seq<byte>)
    returns (hs': seq<Header>, z': seq<byte>)
    requires Outcome(p, rq, Indeterminate, text, before, hs, z)
    ensures var one := Step(p, rq, c);
            Outcome(one.parser, one.request, one.result, text + [c], before, hs', z')
  {
    hs', z' := hs, z;
    var one := Step(p, rq, c);
    if one.result.Indeterminate? {
      hs', z' := StepKeeps(p, rq, c, before, hs, z);
    } else if one.result.Good? {
      assert p.state.Newline3? && c == LF;
      assert [CR] + [c] == CRLF;
      assert one.request == rq;
    }
  }

  lemma {:induction false} FeedOutcome(p: Parser, rq: Request, s: seq<byte>, text: seq<byte>, before: seq<Header>,
                                       hs: seq<Header>, z: seq<byte>)
    returns (hs': seq<Header>, z': seq<byte>)
    requires Outcome(p, rq, Indeterminate, text, before, hs, z)
    ensures var fed := Feed(p, rq, s);
            Outcome(fed.parser, fed.request, fed.result, text + s[..fed.used], before, hs', z')
    decreases |s|
  {
    hide Outcome, Step;
    hs', z' := hs, z;
    if s == [] {
      assert text + s[..0] == text;
      return;
    }
    var one := Step(p, rq, s[0]);
    hs', z' := StepOutcome(p, rq, s[0], text, before, hs, z);
    if one.result.Indeterminate? {
      var used := Feed(p, rq, s).used;
      assert text + [s[0]] + s[1..][..used - 1] == text + s[..used];
      hs', z' := FeedOutcome(one.parser, one.request, s[1..], text + [s[0]], before, hs', z');
    } else {
      assert text + s[..1] == text + [s[0]];
    }
  }

  // ----- every printed message is accepted -----

  ghost predicate Moves(p: Parser, rq: Request, s: seq<byte>, p': Parser, rq': Request) {
    Feed(p, rq, s) == Fed(p', rq', Indeterminate, |s|)
  }

  lemma Then(p: Parser, rq: Request, s: seq<byte>, p1: Parser, rq1: Request, t: seq<byte>, p2: Parser, rq2: Request)
    requires Moves(p, rq, s, p1, rq1) && Moves(p1, rq1, t, p2, rq2)
    ensures Moves(p, rq, s + t, p2, rq2)
  {
    FeedAppend(p, rq, s, t);
  }

  lemma One(p: Parser, rq: Request, c: byte)
    requires Step(p, rq, c).result.Indeterminate?
    ensures Moves(p, rq, [c], Step(p, rq, c).parser, Step(p, rq, c).request)
  {
    assert [c][1..] == [];
  }

  /** A run of bytes that each go into the same builder. */
  lemma {:induction false} MovesVerb(p: Parser, rq: Request, s: seq<byte>)
    requires p.state.Method? && AllTokens(s) && |p.verb| + |s| <= MAX_METHOD
    ensures Moves(p, rq, s, p.(verb := p.verb + s), rq)
    decreases |s|
  {
    if s == [] {
      assert p.verb + s == p.verb;
    } else {
      assert s[0] in s;
      var next := Step(p, rq, s[0]).parser;
      MovesVerb(next, rq, s[1..]);
      assert next.verb + s[1..] == p.verb + s;
    }
  }

  lemma {:induction false} MovesUri(p: Parser, rq: Request, s: seq<byte>)
    requires p.state.Uri? && AllUri(s) && |p.uri| + |s| <= MAX_URI
    ensures Moves(p, rq, s, p.(uri := p.uri + s), rq)
    decreases |s|
  {
    if s == [] {
      assert p.uri + s == p.uri;
    } else {
      assert s[0] in s;
      var next := Step(p, rq, s[0]).parser;
      MovesUri(next, rq, s[1..]);
      assert next.uri + s[1..] == p.uri + s;
    }
  }

  lemma {:induction false} MovesName(p: Parser, rq: Request, s: seq<byte>)
    requires p.state.HeaderName? && AllTokens(s) && p.total + |s| <= MAX_HEADERS
    ensures Moves(p, rq, s, p.(name := p.name + s, total := p.total + |s|), rq)
    decreases |s|
  {
    if s == [] {
      assert p.name + s == p.name;
    } else {
      assert s[0] in s;
      var next := Step(p, rq, s[0]).parser;
      MovesName(next, rq, s[1..]);
      assert next.name + s[1..] == p.name + s;
    }
  }

  lemma {:induction false} MovesValue(p: Parser, rq: Request, s: seq<byte>)
    requires p.state.HeaderValue? && AllText(s) && p.total + |s| <= MAX_HEADERS
    ensures Moves(p, rq, s, p.(value := p.value + s, total := p.total + |s|), rq)
    decreases |s|
  {
    if s == [] {
      assert p.value + s == p.value;
    } else {
      assert s[0] in s;
      var next := Step(p, rq, s[0]).parser;
      MovesValue(next, rq, s[1..]);
      assert next.value + s[1..] == p.value + s;
    }
  }

  const HTTP1_STATES: seq<State> :=
    [VersionH, VersionT1, VersionT2, VersionP, VersionSlash, MajorStart, Major, MinorStart]

  lemma {:induction false} MovesHttp1(p: Parser, rq: Request, k: nat)
    requires k <= 7 && p.state == HTTP1_STATES[k] && (k >= 6 ==> p.major == 1)
    ensures Moves(p, rq, HTTP1[k..], p.(state := MinorStart, major := 1), rq)
    decreases 7 - k
  {
    if k == 7 {
      assert HTTP1[k..] == [];
    } else {
      var next := p.(state := HTTP1_STATES[k + 1], major := if k == 5 then 1 else p.major);
      assert Step(p, rq, HTTP1[k]) == Stepped(next, rq, Indeterminate);
      MovesHttp1(next, rq, k + 1);
      assert HTTP1[k..][1..] == HTTP1[k + 1..];
    }
  }

  lemma {:induction false} MovesZeros(p: Parser, rq: Request, s: seq<byte>)
    requires p.state.Minor? && p.major == 1 && p.minor == 0 && AllZeros(s)
    ensures Moves(p, rq, s, p, rq)
    decreases |s|
  {
    if s != [] {
      assert s[0] in s && AddDigit(0, 0, 1) == Some(0);
      assert forall c :: c in s[1..] ==> c in s;
      MovesZeros(p, rq, s[1..]);
    }
  }

  lemma MovesMinor(p: Parser, rq: Request, z: seq<byte>)
    requires p.state.MinorStart? && p.major == 1 && MinorSpelling(z)
    ensures Moves(p, rq, z, p.(state := Minor, minor := MinorValue(z)), rq)
  {
    hide Moves;
    var digit := z[|z| - 1];
    assert digit in z;
    if z == [49] {
      One(p, rq, 49);
    } else {
      var zeros := if AllZeros(z) then z else z[..|z| - 1];
      assert zeros[0] in zeros;
      assert forall c :: c in zeros[1..] ==> c in zeros;
      var at0 := p.(state := Minor, minor := 0);
      One(p, rq, 48);
      MovesZeros(at0, rq, zeros[1..]);
      Then(p, rq, [48], at0, rq, zeros[1..], at0, rq);
      assert [48] + zeros[1..] == zeros;
      if !AllZeros(z) {
        One(at0, rq, digit);
        Then(p, rq, zeros, at0, rq, [digit], p.(state := Minor, minor := digit - 48), rq);
        assert zeros + [digit] == z;
      }
    }
  }

  lemma MovesHeaderName(p: Parser, rq: Request, name: seq<byte>)
    requires p.state.HeaderLineStart? && p.name == [] && p.value == []
    requires name != [] && AllTokens(name) && p.total + |name| <= MAX_HEADERS
    ensures Moves(p, rq, name + [COLON, SP], p.(state := HeaderValue, name := name, total := p.total + |name|), rq)
  {
    hide Moves;
    assert name[0] in name;
    var first, others := name[0], name[1..];
    var a := p.(state := HeaderName, name := [first], total := p.total + 1);
    var b := p.(state := HeaderName, name := name, total := p.total + |name|);
    var c := b.(state := SpaceBeforeValue);
    assert [] + [first] == [first] && [first] + others == name;
    One(p, rq, first);
    MovesName(a, rq, others);
    Then(p, rq, [first], a, rq, others, b, rq);
    One(b, rq, COLON);
    Then(p, rq, name, b, rq, [COLON], c, rq);
    One(c, rq, SP);
    Then(p, rq, name + [COLON], c, rq, [SP], b.(state := HeaderValue), rq);
    assert name + [COLON] + [SP] == name + [COLON, SP];
  }

  lemma MovesHeaderValue(p: Parser, rq: Request, value: seq<byte>)
    requires p.state.HeaderValue? && p.value == []
    requires AllText(value) && p.total + |value| <= MAX_HEADERS
    ensures Moves(p, rq, value + CRLF,
                  p.(state := HeaderLineStart, name := [], total := p.total + |value|),
                  rq.(headers := rq.headers + [Header(p.name, value)]))
  {
    var e := p.(value := value, total := p.total + |value|);
    var f := e.(state := Newline2);
    var g, rqg := p.(state := HeaderLineStart, name := [], total := e.total), rq.(headers := rq.headers + [Header(p.name, value)]);
    assert [] + value == value;
    MovesValue(p, rq, value);
    One(e, rq, CR);
    Then(p, rq, value, e, rq, [CR], f, rq);
    One(f, rq, LF);
    Then(p, rq, value + [CR], f, rq, [LF], g, rqg);
    assert value + [CR] + [LF] == value + CRLF;
  }

  lemma MovesHeader(p: Parser, rq: Request, h: Header)
    requires p.state.HeaderLineStart? && p.name == [] && p.value == []
    requires ValidHeader(h) && p.total + |h.name| + |h.value| <= MAX_HEADERS
    ensures Moves(p, rq, PrintHeader(h),
                  p.(total := p.total + |h.name| + |h.value|), rq.(headers := rq.headers + [h]))
  {
    var d := p.(state := HeaderValue, name := h.name, total := p.total + |h.name|);
    MovesHeaderName(p, rq, h.name);
    MovesHeaderValue(d, rq, h.value);
    Then(p, rq, h.name + [COLON, SP], d, rq, h.value + CRLF,
         p.(total := p.total + |h.name| + |h.value|), rq.(headers := rq.headers + [h]));
    assert h.name + [COLON, SP] + (h.value + CRLF) == PrintHeader(h);
  }

  lemma {:induction false} MovesHeaders(p: Parser, rq: Request, hs: seq<Header>)
    requires p.state.HeaderLineStart? && p.name == [] && p.value == []
    requires (forall h :: h in hs ==> ValidHeader(h)) && p.total + HeadersSize(hs) <= MAX_HEADERS
    ensures Moves(p, rq, PrintHeaders(hs), p.(total := p.total + HeadersSize(hs)), rq.(headers := rq.headers + hs))
    decreases |hs|
  {
    if hs == [] {
      assert rq.headers + hs == rq.headers;
    } else {
      var init, h := hs[..|hs| - 1], hs[|hs| - 1];
      MovesHeaders(p, rq, init);
      var p1, rq1 := p.(total := p.total + HeadersSize(init)), rq.(headers := rq.headers + init);
      MovesHeader(p1, rq1, h);
      assert rq.headers + init + [h] == rq.headers + hs;
      Then(p, rq, PrintHeaders(init), p1, rq1, PrintHeader(h),
           p.(total := p.total + HeadersSize(hs)), rq.(headers := rq.headers + hs));
    }
  }

  lemma MovesStartLine(rq: Request, m: Message)
    requires Valid(m)
    ensures Moves(FRESH, rq, StartLine(m.verb, m.uri),
                  FRESH.(state := VersionH), rq.(verb := m.verb, uri := m.uri))
  {
    assert m.verb[0] in m.verb;
    var first, others := m.verb[0], m.verb[1..];
    var a, b := FRESH.(state := Method, verb := [first]), FRESH.(state := Method, verb := m.verb);
    var c, d := FRESH.(state := Uri), FRESH.(state := Uri, uri := m.uri);
    var rqc := rq.(verb := m.verb);
    assert [] + [first] == [first] && [first] + others == m.verb && [] + m.uri == m.uri;
    One(FRESH, rq, first);
    MovesVerb(a, rq, others);
    Then(FRESH, rq, [first], a, rq, others, b, rq);
    One(b, rq, SP);
    Then(FRESH, rq, m.verb, b, rq, [SP], c, rqc);
    MovesUri(c, rqc, m.uri);
    Then(FRESH, rq, m.verb + [SP], c, rqc, m.uri, d, rqc);
    One(d, rqc, SP);
    Then(FRESH, rq, m.verb + [SP] + m.uri, d, rqc, [SP], FRESH.(state := VersionH), rqc.(uri := m.uri));
  }

  lemma MovesVersionEnd(p: Parser, rq: Request)
    requires p.state.Minor?
    ensures Moves(p, rq, CRLF, p.(state := HeaderLineStart), rq.(major := p.major, minor := p.minor))
  {
    var q, rqq := p.(state := Newline1), rq.(major := p.major, minor := p.minor);
    One(p, rq, CR);
    One(q, rqq, LF);
    Then(p, rq, [CR], q, rqq, [LF], p.(state := HeaderLineStart), rqq);
    assert [CR] + [LF] == CRLF;
  }

  lemma MovesVersion(p: Parser, rq: Request, z: seq<byte>)
    requires p.state.VersionH? && MinorSpelling(z)
    ensures Moves(p, rq, HTTP1 + z + CRLF,
                  p.(state := HeaderLineStart, major := 1, minor := MinorValue(z)), rq.(major := 1, minor := MinorValue(z)))
  {
    var v := MinorValue(z);
    var rqb := rq.(major := 1, minor := v);
    var b := p.(state := MinorStart, major := 1);
    var c := b.(state := Minor, minor := v);
    var e := c.(state := HeaderLineStart);
    MovesHttp1(p, rq, 0);
    assert HTTP1[0..] == HTTP1;
    MovesMinor(b, rq, z);
    Then(p, rq, HTTP1, b, rq, z, c, rq);
    MovesVersionEnd(c, rq);
    Then(p, rq, HTTP1 + z, c, rq, CRLF, e, rqb);
  }

  /** Up to the line feed that ends the blank line. */
  lemma MovesMessage(rq: Request, m: Message)
    requires Valid(m)
    ensures var text := Print(m);
            var end := FRESH.(state := Newline3, major := 1, minor := MinorValue(m.minor), total := HeadersSize(m.headers));
            && Moves(FRESH, rq, text[..|text| - 1], end, Delivered(rq.headers, m))
            && text == text[..|text| - 1] + [LF]
  {
    hide StartLine, PrintHeaders, HeadersSize, MinorSpelling, MinorValue, Moves;
    var start := StartLine(m.verb, m.uri);
    var version := HTTP1 + m.minor + CRLF;
    var v := MinorValue(m.minor);
    var a, rqa := FRESH.(state := VersionH), rq.(verb := m.verb, uri := m.uri);
    var e, rqe := FRESH.(state := HeaderLineStart, major := 1, minor := v), rqa.(major := 1, minor := v);
    var f, rqf := e.(total := HeadersSize(m.headers)), Delivered(rq.headers, m);
    MovesStartLine(rq, m);
    MovesVersion(a, rqa, m.minor);
    Then(FRESH, rq, start, a, rqa, version, e, rqe);
    MovesHeaders(e, rqe, m.headers);
    Then(FRESH, rq, start + version, e, rqe, PrintHeaders(m.headers), f, rqf);
    One(f, rqf, CR);
    Then(FRESH, rq, start + version + PrintHeaders(m.headers), f, rqf, [CR], f.(state := Newline3), rqf);
    var text := Print(m);
    assert text[..|text| - 1] == start + version + PrintHeaders(m.headers) + [CR];
  }

  // ----- the theorems -----

  lemma LastByte(p: Parser, rq: Request, rest: seq<byte>)
    requires p.state.Newline3?
    ensures var fed := Feed(p, rq, [LF] + rest); fed.result.Good? && fed.used == 1 && fed.request == rq
  {
  }

  /** Printing and then parsing gives the request back and leaves every following byte unread. */
  lemma PrintedIsAccepted(rq: Request, m: Message, rest: seq<byte>)
    requires Valid(m)
    ensures var fed := Feed(FRESH, rq, Print(m) + rest);
            fed.result.Good? && fed.used == |Print(m)| && fed.request == Delivered(rq.headers, m)
  {
    var text := Print(m);
    var init := text[..|text| - 1];
    MovesMessage(rq, m);
    LastByte(Feed(FRESH, rq, init).parser, Delivered(rq.headers, m), rest);
    hide Print, Valid, Delivered, MinorValue, HeadersSize, Feed;
    FeedAppend(FRESH, rq, init, [LF] + rest);
    assert init + ([LF] + rest) == text + rest;
  }

  /** The parser says Good after exactly `s` when, and only when, `s` is a request header. */
  lemma AcceptsExactlyTheGrammar(rq: Request, s: seq<byte>)
    ensures (Feed(FRESH, rq, s).result.Good? && Feed(FRESH, rq, s).used == |s|)
            <==> exists m :: Valid(m) && Print(m) == s
  {
    var fed := Feed(FRESH, rq, s);
    if fed.result.Good? && fed.used == |s| {
      var m := AcceptedIsPrinted(rq, s);
      assert s[..fed.used] == s;
    }
    if m :| Valid(m) && Print(m) == s {
      PrintedIsAccepted(rq, m, []);
      assert s + [] == s;
    }
  }

  /** What was read before a Good answer is a printed request header, and the request is what it says. */
  lemma AcceptedIsPrinted(rq: Request, s: seq<byte>) returns (m: Message)
    requires Feed(FRESH, rq, s).result.Good?
    ensures var fed := Feed(FRESH, rq, s);
            Valid(m) && s[..fed.used] == Print(m) && fed.request == Delivered(rq.headers, m)
  {
    FreshInv(rq);
    var hs, z := FeedOutcome(FRESH, rq, s, [], rq.headers, [], []);
    var fed := Feed(FRESH, rq, s);
    m := Message(fed.request.verb, fed.request.uri, z, hs);
    assert [] + s[..fed.used] == s[..fed.used];
  }

  // ----- what is undecided can still become a request -----

  lemma PrefixOfPrint(m: Message, line: seq<byte>, k: nat)
    requires line == StartLine(m.verb, m.uri) && k <= |HTTP1|
    ensures m.verb <= Print(m) && m.verb + [SP] + m.uri <= Print(m) && line + HTTP1[..k] <= Print(m)
    ensures line + HTTP1 + m.minor + [CR] <= Print(m)
    ensures line + HTTP1 + m.minor + CRLF + PrintHeaders(m.headers) + [CR] <= Print(m)
  {
    hide PrintHeaders;
    var verb := m.verb + [SP];
    assert m.verb <= verb <= verb + m.uri <= line;
    assert line <= line + HTTP1[..k] <= line + HTTP1 <= line + HTTP1 + m.minor;
    assert line + HTTP1 + m.minor <= line + HTTP1 + m.minor + [CR] <= line + HTTP1 + m.minor + CRLF;
    var head := line + HTTP1 + m.minor + CRLF + PrintHeaders(m.headers);
    assert line + HTTP1 + m.minor + CRLF <= head <= head + [CR] <= head + CRLF;
  }

  /** The request that completes an undecided text in the simplest way. */
  ghost function Completed(p: Parser, rq: Request, hs: seq<Header>, z: seq<byte>): Message {
    Message(if p.state.MethodStart? then [71] else if p.state.Method? then p.verb else rq.verb,
            if p.state.MethodStart? || p.state.Method? || (p.state.Uri? && p.uri == []) then [47]
            else if p.state.Uri? then p.uri else rq.uri,
            if InRequestLine(p.state) || p.state.MajorStart? || p.state.Major? || p.state.MinorStart? then [49] else z,
            if p.name != [] then hs + [Header(p.name, p.value)] else hs)
  }

  lemma Simplest()
    ensures AllTokens([71]) && AllUri([47]) && MinorSpelling([49])
  {
  }

  lemma CompletedIsValid(p: Parser, rq: Request, before: seq<Header>, hs: seq<Header>, z: seq<byte>)
    requires Inv(p, rq, before, hs, z)
    ensures Valid(Completed(p, rq, hs, z))
  {
    Simplest();
    hide MinorValue, PrintHeaders, MinorSpelling, AllTokens, AllUri, AllText;
    if p.name != [] {
      var h := Header(p.name, p.value);
      assert ValidHeader(h);
      NewHeader(before, hs, h);
      hide HeadersSize;
    }
  }

  lemma CompletedLine(p: Parser, rq: Request, before: seq<Header>, hs: seq<Header>, z: seq<byte>)
    requires Inv(p, rq, before, hs, z) && (InRequestLine(p.state) || InVersion(p.state))
    ensures Consumed(p, rq, hs, z) <= Print(Completed(p, rq, hs, z))
  {
    hide Print, PrintHeaders, StartLine, HeadersSize, MinorValue, MinorSpelling, AllTokens, AllUri, AllText, ValidHeader;
    var m := Completed(p, rq, hs, z);
    var line := StartLine(m.verb, m.uri);
    PrefixOfPrint(m, line, 0);
    assert line + HTTP1[..0] == line && HTTP1[..7] == HTTP1;
    match p.state
    case MethodStart => assert [] <= Print(m);
    case Method =>
    case Uri => assert m.verb + [SP] + p.uri <= m.verb + [SP] + m.uri;
    case VersionH =>
    case VersionT1 => PrefixOfPrint(m, line, 1);
    case VersionT2 => PrefixOfPrint(m, line, 2);
    case VersionP => PrefixOfPrint(m, line, 3);
    case VersionSlash => PrefixOfPrint(m, line, 4);
    case MajorStart => PrefixOfPrint(m, line, 5);
    case Major => PrefixOfPrint(m, line, 6);
    case MinorStart => PrefixOfPrint(m, line, 7);
    case Minor => assert line + HTTP1 + z <= line + HTTP1 + z + [CR];
    case Newline1 =>
  }

  lemma Chain(a: seq<byte>, b: seq<byte>, text: seq<byte>)
    requires a <= b <= text
    ensures a <= text
  {
  }

  lemma HeaderPrefix(lines: seq<byte>, name: seq<byte>, value: seq<byte>, text: seq<byte>)
    requires lines + PrintHeader(Header(name, value)) + [CR] <= text
    ensures lines + name <= text && lines + name + [COLON] <= text && lines + name + [COLON, SP] + value <= text
    ensures lines + name + [COLON, SP] + value + [CR] <= text
  {
    var named := lines + name;
    var all := named + [COLON, SP] + value;
    assert lines + PrintHeader(Header(name, value)) + [CR] == all + [CR] + [LF, CR];
    Chain(all + [CR], all + [CR] + [LF, CR], text);
    Chain(all, all + [CR], text);
    Chain(named + [COLON, SP], all, text);
    assert named + [COLON] + [SP] == named + [COLON, SP];
    Chain(named + [COLON], named + [COLON, SP], text);
    Chain(named, named + [COLON], text);
  }

  lemma CompletedHeaders(p: Parser, rq: Request, before: seq<Header>, hs: seq<Header>, z: seq<byte>)
    requires Inv(p, rq, before, hs, z) && !InRequestLine(p.state) && !InVersion(p.state)
    ensures Consumed(p, rq, hs, z) <= Print(Completed(p, rq, hs, z))
  {
    var m := Completed(p, rq, hs, z);
    var lines := StartLine(m.verb, m.uri) + HTTP1 + z + CRLF + PrintHeaders(hs);
    if p.name == [] {
      assert m.headers == hs && m.minor == z;
      hide Print, StartLine, PrintHeaders, Inv;
      PrefixOfPrint(m, StartLine(m.verb, m.uri), 0);
      Chain(lines, lines + [CR], Print(m));
    } else {
      WithHeader(m, hs, Header(p.name, p.value), lines);
      hide Print, StartLine, PrintHeaders, PrintHeader;
      HeaderPrefix(lines, p.name, p.value, Print(m));
    }
  }

  lemma WithHeader(m: Message, hs: seq<Header>, h: Header, lines: seq<byte>)
    requires m.headers == hs + [h] && lines == StartLine(m.verb, m.uri) + HTTP1 + m.minor + CRLF + PrintHeaders(hs)
    ensures lines + PrintHeader(h) + [CR] <= Print(m)
  {
    NewHeader([], hs, h);
    hide Print, PrintHeaders, StartLine, PrintHeader;
    PrefixOfPrint(m, StartLine(m.verb, m.uri), 0);
    var top := StartLine(m.verb, m.uri) + HTTP1 + m.minor + CRLF;
    assert top + (PrintHeaders(hs) + PrintHeader(h)) == lines + PrintHeader(h);
  }

  /**
   The parser says Bad exactly when no request header begins with these bytes and none is their
   beginning: it neither gives up too early nor waits in vain.
   */
  lemma BadIff(rq: Request, s: seq<byte>)
    ensures Feed(FRESH, rq, s).result.Bad? <==> forall m :: Valid(m) ==> !(s <= Print(m)) && !(Print(m) <= s)
  {
    var fed := Feed(FRESH, rq, s);
    forall m | Valid(m) && (s <= Print(m) || Print(m) <= s)
      ensures !fed.result.Bad?
    {
      NotBad(rq, s, m);
    }
    if fed.result.Good? {
      var m := AcceptedIsPrinted(rq, s);
      assert s[..fed.used] <= s;
    } else if fed.result.Indeterminate? {
      FreshInv(rq);
      var hs, z := FeedOutcome(FRESH, rq, s, [], rq.headers, [], []);
      assert [] + s[..fed.used] == s;
      CompletedIsValid(fed.parser, fed.request, rq.headers, hs, z);
      if InRequestLine(fed.parser.state) || InVersion(fed.parser.state) {
        CompletedLine(fed.parser, fed.request, rq.headers, hs, z);
      } else {
        CompletedHeaders(fed.parser, fed.request, rq.headers, hs, z);
      }
    }
  }

  lemma NotBad(rq: Request, s: seq<byte>, m: Message)
    requires Valid(m) && (s <= Print(m) || Print(m) <= s)
    ensures !Feed(FRESH, rq, s).result.Bad?
  {
    hide Print, Valid, Feed;
    var text := Print(m);
    if s <= text {
      PrintedIsAccepted(rq, m, []);
      FeedAppend(FRESH, rq, s, text[|s|..]);
      assert s + text[|s|..] == text + [];
    } else {
      PrintedIsAccepted(rq, m, s[|text|..]);
      assert text + s[|text|..] == s;
    }
  }

  /** While the parser is undecided the size it keeps is the size of all header text, and folding is never reached. */
  lemma SizeIsExact(rq: Request, s: seq<byte>) returns (hs: seq<Header>)
    requires Feed(FRESH, rq, s).result.Indeterminate?
    ensures var fed := Feed(FRESH, rq, s);
            && fed.request.headers == rq.headers + hs
            && fed.parser.total == HeadersSize(hs) + |fed.parser.name| + |fed.parser.value| <= MAX_HEADERS
            && !fed.parser.state.HeaderLws?
  {
    FreshInv(rq);
    var z;
    hs, z := FeedOutcome(FRESH, rq, s, [], rq.headers, [], []);
  }

  /** `GET / HTTP/1.05` is accepted, as minor version 5. */
  lemma MinorFiveExample(rq: Request)
    ensures var m := Message([71, 69, 84], [47], [48, 53], []); var fed := Feed(FRESH, rq, Print(m));
            Valid(m) && fed.result.Good? && fed.request.major == 1 && fed.request.minor == 5
  {
    var m := Message([71, 69, 84], [47], [48, 53], []);
    assert AllZeros([48, 53][..1]);
    PrintedIsAccepted(rq, m, []);
    assert Print(m) + [] == Print(m);
  }
}
