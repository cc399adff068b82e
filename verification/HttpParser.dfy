/** The byte-at-a-time HTTP/1.x request header parser: src/http_request_parser.h and .cpp. */
module HttpParser {
  import opened Basics

  const UNSIGNED: nat := 0x1_0000_0000  // one past the largest `unsigned`
  const MAX_METHOD: nat := 10
  const MAX_URI: nat := 2048
  const MAX_HEADERS: nat := 8192

  const CR: byte := 13
  const LF: byte := 10
  const SP: byte := 32
  const HT: byte := 9
  const COLON: byte := 58

  predicate IsChar(c: byte) { c <= 127 }
  predicate IsCtl(c: byte) { c <= 31 || c == 127 }
  predicate IsTSpecial(c: byte) {
    // ( ) < > @ , ; : \ " / [ ] ? = { } space tab
    c in {40, 41, 60, 62, 64, 44, 59, 58, 92, 34, 47, 91, 93, 63, 61, 123, 125, 32, 9}
  }
  predicate IsToken(c: byte) { IsChar(c) && !IsCtl(c) && !IsTSpecial(c) }
  predicate IsDigit(c: byte) { 48 <= c <= 57 }

  // ----- boundedAddDigit -----

  /** 32-bit arithmetic throughout; in particular `maxVal - digit` wraps around when it is negative. */
  function AddDigit(value: nat, digit: nat, maxVal: nat): Option<nat> {
    if maxVal / 10 < value then None
    else
      var val := (value * 10) % UNSIGNED;
      if (maxVal - digit) % UNSIGNED < val then None
      else Some((val + digit) % UNSIGNED)
  }

  /** Appending a digit obeys the bound, except that a leading zero lets in a digit above the bound. */
  lemma AddDigitExactIff(value: nat, digit: nat, maxVal: nat)
    requires value <= maxVal < UNSIGNED && digit <= 9
    ensures AddDigit(value, digit, maxVal) ==
            (if value * 10 + digit <= maxVal then Some(value * 10 + digit) else None)
            <==> !(value == 0 && digit > maxVal)
  {
    if maxVal / 10 >= value {
      assert value * 10 <= maxVal;
      assert value * 10 % UNSIGNED == value * 10;
    }
  }

  // ----- state -----

  datatype State =
    | MethodStart | Method | Uri
    | VersionH | VersionT1 | VersionT2 | VersionP | VersionSlash
    | MajorStart | Major | MinorStart | Minor
    | Newline1 | HeaderLineStart | HeaderLws | HeaderName | SpaceBeforeValue | HeaderValue
    | Newline2 | Newline3

  predicate InRequestLine(s: State) {
    match s
    case MethodStart | Method | Uri | VersionH | VersionT1 | VersionT2 | VersionP | VersionSlash => true
    case _ => false
  }

  predicate InVersion(s: State) {
    s.MajorStart? || s.Major? || s.MinorStart? || s.Minor? || s.Newline1?
  }

  datatype Result = Good | Bad | Indeterminate

  datatype Header = Header(name: seq<byte>, value: seq<byte>)

  /** Headers in the order they were added. */
  datatype Request = Request(verb: seq<byte>, uri: seq<byte>, major: nat, minor: nat, headers: seq<Header>)

  /** The four string builders are modelled by the text they hold. */
  datatype Parser = Parser(state: State, verb: seq<byte>, uri: seq<byte>, major: nat, minor: nat,
                           name: seq<byte>, value: seq<byte>, total: nat)

  const FRESH: Parser := Parser(MethodStart, [], [], 0, 0, [], [], 0)

  datatype Stepped = Stepped(parser: Parser, request: Request, result: Result)

  // ----- one byte -----

  function Expect(p: Parser, rq: Request, ok: bool, next: State): Stepped {
    if ok then Stepped(p.(state := next), rq, Indeterminate) else Stepped(p, rq, Bad)
  }

  function Step(p: Parser, rq: Request, c: byte): Stepped {
    match p.state
    case MethodStart =>
      if IsToken(c) then Stepped(p.(state := Method, verb := p.verb + [c]), rq, Indeterminate)
      else Stepped(p, rq, Bad)
    case Method =>
      if c == SP then Stepped(p.(state := Uri, verb := []), rq.(verb := p.verb), Indeterminate)
      else if !IsToken(c) || |p.verb| == MAX_METHOD then Stepped(p, rq, Bad)
      else Stepped(p.(verb := p.verb + [c]), rq, Indeterminate)
    case Uri =>
      if c == SP then
        if p.uri == [] then Stepped(p, rq, Bad)
        else Stepped(p.(state := VersionH, uri := []), rq.(uri := p.uri), Indeterminate)
      else if IsCtl(c) || |p.uri| == MAX_URI then Stepped(p, rq, Bad)
      else Stepped(p.(uri := p.uri + [c]), rq, Indeterminate)
    case VersionH => Expect(p, rq, c == 'H' as int, VersionT1)
    case VersionT1 => Expect(p, rq, c == 'T' as int, VersionT2)
    case VersionT2 => Expect(p, rq, c == 'T' as int, VersionP)
    case VersionP => Expect(p, rq, c == 'P' as int, VersionSlash)
    case VersionSlash => Expect(p, rq, c == '/' as int, MajorStart)
    case MajorStart =>
      if IsDigit(c) && 0 < c - 48 <= 1 then Stepped(p.(state := Major, major := c - 48), rq, Indeterminate)
      else Stepped(p, rq, Bad)
    case Major =>
      if c == '.' as int then Expect(p, rq, p.major >= 1, MinorStart)
      else if !IsDigit(c) then Stepped(p, rq, Bad)
      else (
        match AddDigit(p.major, c - 48, 1)
        case None => Stepped(p, rq, Bad)
        case Some(v) => Stepped(p.(major := v), rq, Indeterminate))
    case MinorStart =>
      if !IsDigit(c) || (p.major == 1 && c - 48 > 1) then Stepped(p, rq, Bad)
      else Stepped(p.(state := Minor, minor := c - 48), rq, Indeterminate)
    case Minor =>
      if c == CR then Stepped(p.(state := Newline1), rq.(major := p.major, minor := p.minor), Indeterminate)
      else if !IsDigit(c) then Stepped(p, rq, Bad)
      else (
        match AddDigit(p.minor, c - 48, if p.major == 1 then 1 else UNSIGNED - 1)
        case None => Stepped(p, rq, Bad)
        case Some(v) => Stepped(p.(minor := v), rq, Indeterminate))
    case Newline1 => Expect(p, rq, c == LF, HeaderLineStart)
    case HeaderLineStart =>
      if c == CR then Stepped(p.(state := Newline3), rq, Indeterminate)
      else if p.value != [] && (c == SP || c == HT) then Stepped(p.(state := HeaderLws), rq, Indeterminate)
      else if !IsToken(c) || p.total == MAX_HEADERS then Stepped(p, rq, Bad)
      else Stepped(p.(state := HeaderName, name := p.name + [c], total := p.total + 1), rq, Indeterminate)
    case HeaderLws =>
      if c == CR then Stepped(p.(state := Newline2), rq, Indeterminate)
      else if c == SP || c == HT then Stepped(p, rq, Indeterminate)
      else if IsCtl(c) then Stepped(p, rq, Bad)
      else if p.total == MAX_HEADERS then Stepped(p.(state := HeaderValue), rq, Bad)
      else Stepped(p.(state := HeaderValue, value := p.value + [c], total := p.total + 1), rq, Indeterminate)
    case HeaderName =>
      if c == COLON then Stepped(p.(state := SpaceBeforeValue), rq, Indeterminate)
      else if !IsToken(c) || p.total == MAX_HEADERS then Stepped(p, rq, Bad)
      else Stepped(p.(name := p.name + [c], total := p.total + 1), rq, Indeterminate)
    case SpaceBeforeValue => Expect(p, rq, c == SP, HeaderValue)
    case HeaderValue =>
      if c == CR then Stepped(p.(state := Newline2), rq, Indeterminate)
      else if IsCtl(c) || p.total == MAX_HEADERS then Stepped(p, rq, Bad)
      else Stepped(p.(value := p.value + [c], total := p.total + 1), rq, Indeterminate)
    case Newline2 =>
      if c == LF then
        Stepped(p.(state := HeaderLineStart, name := [], value := []),
                rq.(headers := rq.headers + [Header(p.name, p.value)]), Indeterminate)
      else Stepped(p, rq, Bad)
    case Newline3 => Stepped(p, rq, if c == LF then Good else Bad)
  }

  // ----- a run over some bytes -----

  datatype Fed = Fed(parser: Parser, request: Request, result: Result, used: nat)

  function Feed(p: Parser, rq: Request, s: seq<byte>): (r: Fed)
    ensures r.used <= |s|
    ensures r.result.Indeterminate? ==> r.used == |s|
    decreases |s|
  {
    if s == [] then Fed(p, rq, Indeterminate, 0)
    else
      var one := Step(p, rq, s[0]);
      if one.result.Indeterminate? then
        var rest := Feed(one.parser, one.request, s[1..]);
        rest.(used := rest.used + 1)
      else Fed(one.parser, one.request, one.result, 1)
  }

  /** Feeding one read after the other until the parser decides. */
  function FeedPieces(p: Parser, rq: Request, pieces: seq<seq<byte>>): Fed
    decreases |pieces|
  {
    if pieces == [] then Fed(p, rq, Indeterminate, 0)
    else
      var one := Feed(p, rq, pieces[0]);
      if one.result.Indeterminate? then
        var rest := FeedPieces(one.parser, one.request, pieces[1..]);
        rest.(used := rest.used + one.used)
      else one
  }

  lemma {:induction false} FeedAppend(p: Parser, rq: Request, s: seq<byte>, t: seq<byte>)
    ensures var one := Feed(p, rq, s);
            Feed(p, rq, s + t) ==
            if one.result.Indeterminate?
            then var rest := Feed(one.parser, one.request, t); rest.(used := rest.used + |s|)
            else one
    decreases |s|
  {
    if s == [] {
      assert s + t == t;
    } else {
      assert (s + t)[1..] == s[1..] + t;
      var one := Step(p, rq, s[0]);
      FeedAppend(one.parser, one.request, s[1..], t);
    }
  }

  /** However the bytes are split into reads, the result, the request and the consumed count are the same. */
  lemma {:induction false} SplitIrrelevant(p: Parser, rq: Request, pieces: seq<seq<byte>>)
    ensures FeedPieces(p, rq, pieces) == Feed(p, rq, Flatten(pieces))
    decreases |pieces|
  {
    if pieces != [] {
      var one := Feed(p, rq, pieces[0]);
      FeedAppend(p, rq, pieces[0], Flatten(pieces[1..]));
      SplitIrrelevant(one.parser, one.request, pieces[1..]);
    }
  }

  // ----- the two C++ classes -----

  class HttpRequest {
    var verb: seq<byte>
    var uri: seq<byte>
    var versionMajor: nat
    var versionMinor: nat
    var headers: seq<Header>

    function View(): Request
      reads this
    {
      Request(verb, uri, versionMajor, versionMinor, headers)
    }

    constructor ()
      ensures headers == []
    {
      headers := [];
    }
  }

  class HttpRequestParser {
    var state: State
    var verbBuilder: seq<byte>
    var uriBuilder: seq<byte>
    var versionMajor: nat
    var versionMinor: nat
    var nameBuilder: seq<byte>
    var valueBuilder: seq<byte>
    var totalHeadersSize: nat

    function View(): Parser
      reads this
    {
      Parser(state, verbBuilder, uriBuilder, versionMajor, versionMinor, nameBuilder, valueBuilder, totalHeadersSize)
    }

    constructor ()
      ensures View() == FRESH
    {
      state := MethodStart;
      verbBuilder, uriBuilder, nameBuilder, valueBuilder := [], [], [], [];
      versionMajor, versionMinor, totalHeadersSize := 0, 0, 0;
    }

    method Reset()
      modifies this
      ensures View() == FRESH
    {
      state := MethodStart;
      verbBuilder, uriBuilder, nameBuilder, valueBuilder := [], [], [], [];
      versionMajor, versionMinor, totalHeadersSize := 0, 0, 0;
    }

    method ConsumeRequestLine(req: HttpRequest, c: byte) returns (r: Result)
      requires InRequestLine(state)
      modifies this, req
      ensures Stepped(View(), req.View(), r) == Step(old(View()), old(req.View()), c)
    {
      match state {
        case MethodStart =>
          if !IsChar(c) || IsCtl(c) || IsTSpecial(c) { return Bad; }
          verbBuilder := verbBuilder + [c];
          state := Method;
          return Indeterminate;
        case Method =>
          if c == SP {
            req.verb := verbBuilder;
            verbBuilder := [];
            state := Uri;
            return Indeterminate;
          }
          if !IsChar(c) || IsCtl(c) || IsTSpecial(c) { return Bad; }
          if |verbBuilder| == MAX_METHOD { return Bad; }
          verbBuilder := verbBuilder + [c];
          return Indeterminate;
        case Uri =>
          if c == SP {
            if uriBuilder == [] { return Bad; }
            req.uri := uriBuilder;
            uriBuilder := [];
            state := VersionH;
            return Indeterminate;
          }
          if IsCtl(c) { return Bad; }
          if |uriBuilder| == MAX_URI { return Bad; }
          uriBuilder := uriBuilder + [c];
          return Indeterminate;
        case VersionH =>
          if c == 'H' as int { state := VersionT1; return Indeterminate; }
          return Bad;
        case VersionT1 =>
          if c == 'T' as int { state := VersionT2; return Indeterminate; }
          return Bad;
        case VersionT2 =>
          if c == 'T' as int { state := VersionP; return Indeterminate; }
          return Bad;
        case VersionP =>
          if c == 'P' as int { state := VersionSlash; return Indeterminate; }
          return Bad;
        case VersionSlash =>
          if c == '/' as int { state := MajorStart; return Indeterminate; }
          return Bad;
      }
    }

    method ConsumeVersion(req: HttpRequest, c: byte) returns (r: Result)
      requires InVersion(state)
      modifies this, req
      ensures Stepped(View(), req.View(), r) == Step(old(View()), old(req.View()), c)
    {
      match state {
        case MajorStart =>
          if IsDigit(c) {
            var digit := c - 48;
            if digit == 0 || digit > 1 { return Bad; }
            versionMajor := digit;
            state := Major;
            return Indeterminate;
          }
          return Bad;
        case Major =>
          if c == '.' as int {
            if versionMajor < 1 { return Bad; }
            state := MinorStart;
            return Indeterminate;
          }
          if IsDigit(c) {
            var sum := AddDigit(versionMajor, c - 48, 1);
            if sum.None? { return Bad; }
            versionMajor := sum.value;
            return Indeterminate;
          }
          return Bad;
        case MinorStart =>
          if IsDigit(c) {
            var digit := c - 48;
            if versionMajor == 1 && digit > 1 { return Bad; }
            versionMinor := digit;
            state := Minor;
            return Indeterminate;
          }
          return Bad;
        case Minor =>
          if c == CR {
            // the comparison with the lowest minor version, 0, never rejects
            req.versionMajor := versionMajor;
            req.versionMinor := versionMinor;
            state := Newline1;
            return Indeterminate;
          }
          if IsDigit(c) {
            var sum := AddDigit(versionMinor, c - 48, if versionMajor == 1 then 1 else UNSIGNED - 1);
            if sum.None? { return Bad; }
            versionMinor := sum.value;
            return Indeterminate;
          }
          return Bad;
        case Newline1 =>
          if c == LF { state := HeaderLineStart; return Indeterminate; }
          return Bad;
      }
    }

    method ConsumeHeaders(req: HttpRequest, c: byte) returns (r: Result)
      requires !InRequestLine(state) && !InVersion(state)
      modifies this, req
      ensures Stepped(View(), req.View(), r) == Step(old(View()), old(req.View()), c)
    {
      match state {
        case HeaderLineStart =>
          if c == CR { state := Newline3; return Indeterminate; }
          if valueBuilder != [] && (c == SP || c == HT) { state := HeaderLws; return Indeterminate; }
          if !IsChar(c) || IsCtl(c) || IsTSpecial(c) { return Bad; }
          if totalHeadersSize == MAX_HEADERS { return Bad; }
          nameBuilder := nameBuilder + [c];
          totalHeadersSize := totalHeadersSize + 1;
          state := HeaderName;
          return Indeterminate;
        case HeaderLws =>
          if c == CR { state := Newline2; return Indeterminate; }
          if c == SP || c == HT { return Indeterminate; }
          if IsCtl(c) { return Bad; }
          state := HeaderValue;
          if totalHeadersSize == MAX_HEADERS { return Bad; }
          valueBuilder := valueBuilder + [c];
          totalHeadersSize := totalHeadersSize + 1;
          return Indeterminate;
        case HeaderName =>
          if c == COLON { state := SpaceBeforeValue; return Indeterminate; }
          if !IsChar(c) || IsCtl(c) || IsTSpecial(c) { return Bad; }
          if totalHeadersSize == MAX_HEADERS { return Bad; }
          nameBuilder := nameBuilder + [c];
          totalHeadersSize := totalHeadersSize + 1;
          return Indeterminate;
        case SpaceBeforeValue =>
          if c == SP { state := HeaderValue; return Indeterminate; }
          return Bad;
        case HeaderValue =>
          if c == CR { state := Newline2; return Indeterminate; }
          if IsCtl(c) { return Bad; }
          if totalHeadersSize == MAX_HEADERS { return Bad; }
          valueBuilder := valueBuilder + [c];
          totalHeadersSize := totalHeadersSize + 1;
          return Indeterminate;
        case Newline2 =>
          if c == LF {
            req.headers := req.headers + [Header(nameBuilder, valueBuilder)];
            nameBuilder, valueBuilder := [], [];
            state := HeaderLineStart;
            return Indeterminate;
          }
          return Bad;
        case Newline3 =>
          return if c == LF then Good else Bad;
      }
    }

    method Consume(req: HttpRequest, c: byte) returns (r: Result)
      modifies this, req
      ensures Stepped(View(), req.View(), r) == Step(old(View()), old(req.View()), c)
    {
      if InRequestLine(state) {
        r := ConsumeRequestLine(req, c);
      } else if InVersion(state) {
        r := ConsumeVersion(req, c);
      } else {
        r := ConsumeHeaders(req, c);
      }
    }

    method Parse(req: HttpRequest, input: seq<byte>) returns (r: Result, used: nat)
      modifies this, req
      ensures Fed(View(), req.View(), r, used) == Feed(old(View()), old(req.View()), input)
    {
      used := 0;
      while used != |input|
        invariant used <= |input|
        invariant var rest := Feed(View(), req.View(), input[used..]);
                  rest.(used := rest.used + used) == Feed(old(View()), old(req.View()), input)
        decreases |input| - used
      {
        assert input[used..][1..] == input[used + 1..];
        r := Consume(req, input[used]);
        used := used + 1;
        if r == Good || r == Bad {
          return;
        }
      }
      return Indeterminate, used;
    }
  }
}
