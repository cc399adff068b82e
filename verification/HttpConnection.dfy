/** One HTTP connection: how reads become a request header and a body, src/http_server.cpp. */
module HttpConnection {
  import opened Basics
  import opened HttpParser
  import opened HttpHeaders

  const MAX_CONTENT: nat := 256 * 1024
  const POST: seq<byte> := [80, 79, 83, 84]
  const SLASH: byte := 47
  // application/soap+xml
  const SOAP_XML: seq<byte> :=
    [97, 112, 112, 108, 105, 99, 97, 116, 105, 111, 110, 47, 115, 111, 97, 112, 43, 120, 109, 108]
  const CHARSET: seq<byte> := [99, 104, 97, 114, 115, 101, 116, 61]  // charset=

  /** One call of the XML push parser. */
  datatype Chunk = Chunk(data: seq<byte>, last: bool)

  /** The XML parser and the request handler may answer in any way that depends on what they were given. */
  datatype Env = Env(httpPath: seq<byte>,
                     fails: seq<Chunk> -> bool,
                     wellFormed: seq<Chunk> -> bool,
                     handle: seq<Chunk> -> Option<seq<byte>>)

  datatype Response = NoResponse | BadRequest | NotFound | Reply(body: seq<byte>)
  datatype ParseResult = Continue | Error | Done
  datatype State = InHeader | InBody

  /** `log` holds every chunk handed over on this connection; `content` those of the current XML parser. */
  datatype Conn = Conn(state: State, parser: Parser, request: Request, response: Response,
                       remaining: nat, keepAlive: bool, content: Option<seq<Chunk>>, log: seq<Chunk>)

  datatype Parsed = Parsed(conn: Conn, result: ParseResult, used: nat)

  // ----- the checks on a complete request header -----

  datatype Check = Reject(response: Response, remaining: Option<nat>) | Accept(length: nat, keepAlive: bool)

  predicate ContentTypeFits(parts: seq<seq<byte>>) {
    1 <= |parts| <= 2 && parts[0] == SOAP_XML && (|parts| == 2 ==> CHARSET <= parts[1])
  }

  function CheckHeader(path: seq<byte>, rq: Request): Check {
    if rq.verb != POST || rq.uri != [SLASH] + path then Reject(NotFound, None)
    else
      match ContentLength(rq)
      case NotUnique => Reject(BadRequest, None)
      case BadFormat => Reject(BadRequest, None)
      case Found(None) => Reject(BadRequest, None)
      case Found(Some(n)) =>
        if n > MAX_CONTENT then Reject(BadRequest, None)
        else
          match ContentType(rq)
          case NotUnique => Reject(BadRequest, Some(n))
          case BadFormat => Reject(BadRequest, Some(n))
          case Found(None) => Accept(n, KeepAlive(rq))
          case Found(Some(parts)) =>
            if ContentTypeFits(parts) then Accept(n, KeepAlive(rq)) else Reject(BadRequest, Some(n))
  }

  // ----- the decision, said over the headers themselves -----

  /** The names and values that matter, as text. */
  lemma NamesAsWritten()
    ensures Spells(POST, "POST") && Spells([SLASH], "/")
    ensures Spells(CONTENT_LENGTH, "Content-Length") && Spells(CONTENT_TYPE, "Content-Type")
    ensures Spells(CONNECTION, "Connection") && Spells(KEEP_ALIVE, "keep-alive") && Spells([COMMA, SP], ", ")
    ensures Spells(SOAP_XML, "application/soap+xml") && Spells([SEMICOLON, SP], "; ") && Spells(CHARSET, "charset=")
  {
  }

  /** `application/soap+xml`, alone or followed by `; charset=` and something without another `; `. */
  ghost predicate SoapType(value: seq<byte>) {
    value == SOAP_XML ||
    exists x :: value == SOAP_XML + [SEMICOLON, SP] + (CHARSET + x) && !HasSeparator(x, SEMICOLON, SP)
  }

  lemma NoSeparatorIn(head: seq<byte>, x: seq<byte>, a: byte, b: byte)
    requires a !in head
    ensures HasSeparator(head + x, a, b) <==> HasSeparator(x, a, b)
  {
    var s := head + x;
    forall k | 0 <= k < |head|
      ensures s[k] != a
    {
      assert s[k] == head[k];
    }
    if HasSeparator(x, a, b) {
      var k :| 0 <= k < |x| - 1 && x[k] == a && x[k + 1] == b;
      assert s[|head| + k] == a && s[|head| + k + 1] == b;
    }
    if HasSeparator(s, a, b) {
      var k :| 0 <= k < |s| - 1 && s[k] == a && s[k + 1] == b;
      assert x[k - |head|] == a && x[k - |head| + 1] == b;
    }
  }

  lemma ContentTypeIff(value: seq<byte>)
    ensures ContentTypeFits(Split(value, SEMICOLON, SP)) <==> SoapType(value)
  {
    var parts := Split(value, SEMICOLON, SP);
    NoSeparatorIn(SOAP_XML, [], SEMICOLON, SP);
    assert SOAP_XML + [] == SOAP_XML && !HasSeparator([], SEMICOLON, SP);
    OnePart(value, SEMICOLON, SP);
    hide Split, HasSeparator;
    if ContentTypeFits(parts) && |parts| == 2 {
      assert parts == [parts[0], parts[1]];
      TwoParts(value, parts[0], parts[1], SEMICOLON, SP);
      var x := parts[1][|CHARSET|..];
      assert parts[1] == CHARSET + x;
      NoSeparatorIn(CHARSET, x, SEMICOLON, SP);
    }
    if SoapType(value) && value != SOAP_XML {
      var x :| value == SOAP_XML + [SEMICOLON, SP] + (CHARSET + x) && !HasSeparator(x, SEMICOLON, SP);
      NoSeparatorIn(CHARSET, x, SEMICOLON, SP);
      TwoParts(value, SOAP_XML, CHARSET + x, SEMICOLON, SP);
    }
  }

  ghost predicate ToPath(path: seq<byte>, rq: Request) {
    rq.verb == POST && rq.uri == [SLASH] + path
  }

  ghost predicate LengthIs(headers: seq<Header>, n: nat) {
    exists i :: OnlyNamed(headers, CONTENT_LENGTH, i) && IsLength(headers[i].value) && Decimal(headers[i].value) == n
  }

  ghost predicate TypeFits(headers: seq<Header>) {
    (forall i :: !Named(headers, CONTENT_TYPE, i)) ||
    (exists i :: OnlyNamed(headers, CONTENT_TYPE, i) && SoapType(headers[i].value))
  }

  lemma TypeDecided(rq: Request)
    ensures TypeFits(rq.headers) <==>
            match ContentType(rq)
            case Found(None) => true
            case Found(Some(parts)) => ContentTypeFits(parts)
            case _ => false
  {
    hide ContentTypeFits, SoapType, Split;
    UniqueHeaderIff(rq, CONTENT_TYPE);
    forall v
      ensures ContentTypeFits(Split(v, SEMICOLON, SP)) <==> SoapType(v)
    {
      ContentTypeIff(v);
    }
  }

  /**
   A request for another path is not found. One for this path is accepted exactly when its one length is
   at most 262144 and its content type, if it has one, is the expected one; otherwise it is a bad request.
   */
  lemma CheckHeaderIff(path: seq<byte>, rq: Request)
    ensures var check := CheckHeader(path, rq);
            && (check.Reject? ==> check.response == if ToPath(path, rq) then BadRequest else NotFound)
            && (forall n, keep :: check == Accept(n, keep) <==>
                  && ToPath(path, rq) && LengthIs(rq.headers, n) && n <= 262144 && TypeFits(rq.headers)
                  && keep == AsksToKeep(rq.headers))
  {
    hide ContentLength, ContentType, KeepAlive, AsksToKeep, LengthIs, TypeFits, ContentTypeFits;
    TypeDecided(rq);
    KeepAliveIff(rq);
    forall n
      ensures ContentLength(rq) == Found(Some(n)) <==> LengthIs(rq.headers, n)
    {
      LengthDecided(rq, n);
    }
  }

  lemma LengthDecided(rq: Request, n: nat)
    ensures ContentLength(rq) == Found(Some(n)) <==> LengthIs(rq.headers, n)
  {
    ContentLengthIff(rq, n);
  }

  // ----- one read -----

  function HeaderPart(env: Env, c: Conn, data: seq<byte>): (r: Parsed)
    ensures r.used <= |data| && (data != [] ==> r.used > 0)
  {
    var fed := Feed(c.parser, c.request, data);
    var c1 := c.(parser := fed.parser, request := fed.request);
    match fed.result
    case Bad => Parsed(c1.(response := BadRequest), Error, fed.used)
    case Indeterminate => Parsed(c1, Continue, |data|)
    case Good =>
      match CheckHeader(env.httpPath, fed.request)
      case Reject(response, n) =>
        Parsed(c1.(response := response, remaining := if n.Some? then n.value else c.remaining), Error, fed.used)
      case Accept(n, keepAlive) =>
        Parsed(c1.(state := InBody, parser := FRESH, remaining := n, keepAlive := keepAlive, content := Some([])),
                Continue, fed.used)
  }

  function BodyPart(env: Env, c: Conn, data: seq<byte>): (r: Parsed)
    requires c.content.Some?
    ensures r.used <= |data|
    ensures r.result.Continue? ==> r.used == |data|
  {
    var size := if c.remaining < |data| then c.remaining else |data|;
    var left := c.remaining - size;
    var chunk := Chunk(data[..size], left == 0);
    var handed := c.content.value + [chunk];
    var c1 := c.(remaining := left, content := Some(handed), log := c.log + [chunk]);
    if env.fails(handed) then Parsed(c1.(response := BadRequest), Error, size)
    else if left != 0 then Parsed(c1, Continue, |data|)
    else if !env.wellFormed(handed) then Parsed(c1.(response := BadRequest), Error, size)
    else
      match env.handle(handed)
      case None => Parsed(c1.(response := BadRequest), Error, size)
      case Some(body) => Parsed(c1.(response := Reply(body), state := InHeader, content := None), Done, size)
  }

  ghost predicate Sound(c: Conn) { c.state.InBody? ==> c.content.Some? }

  datatype Handled = Handled(conn: Conn, result: ParseResult)

  function Incoming(env: Env, c: Conn, data: seq<byte>): (r: Handled)
    requires Sound(c)
    ensures Sound(r.conn)
    decreases |data|
  {
    if data == [] then Handled(c, Continue)
    else
      var one := if c.state.InHeader? then HeaderPart(env, c, data) else BodyPart(env, c, data);
      if !one.result.Continue? then Handled(one.conn, one.result)
      else Incoming(env, one.conn, data[one.used..])
  }

  lemma IncomingStep(env: Env, c: Conn, data: seq<byte>)
    requires Sound(c) && data != []
    ensures var one := if c.state.InHeader? then HeaderPart(env, c, data) else BodyPart(env, c, data);
            && Sound(one.conn)
            && Incoming(env, c, data) ==
               if one.result.Continue? then Incoming(env, one.conn, data[one.used..]) else Handled(one.conn, one.result)
  {
  }

  lemma IncomingNothing(env: Env, c: Conn)
    requires Sound(c)
    ensures Incoming(env, c, []) == Handled(c, Continue)
  {
  }

  /** Reading goes on until there is something to answer. */
  function Deliver(env: Env, c: Conn, pieces: seq<seq<byte>>): Handled
    requires Sound(c)
    decreases |pieces|
  {
    if pieces == [] then Handled(c, Continue)
    else
      var one := Incoming(env, c, pieces[0]);
      if one.result.Continue? then Deliver(env, one.conn, pieces[1..]) else one
  }

  ghost function Opened(rq: Request): Conn {
    Conn(InHeader, FRESH, rq, NoResponse, 0, false, None, [])
  }

  // ----- the class -----

  class HttpConnection {
    const env: Env
    var state: State
    var headerParser: HttpRequestParser
    var request: HttpRequest
    var response: Response
    var contentRemaining: nat
    var keepAlive: bool
    var contentParser: Option<seq<Chunk>>
    var log: seq<Chunk>

    ghost function View(): Conn
      reads this, headerParser, request
    {
      Conn(state, headerParser.View(), request.View(), response, contentRemaining, keepAlive, contentParser, log)
    }

    ghost predicate Valid()
      reads this
    {
      state.InBody? ==> contentParser.Some?
    }

    constructor (env: Env)
      ensures Valid() && fresh(headerParser) && fresh(request)
      ensures this.env == env && request.headers == [] && View() == Opened(request.View())
    {
      this.env := env;
      state := InHeader;
      headerParser := new HttpRequestParser();
      request := new HttpRequest();
      response, contentRemaining, keepAlive, contentParser, log := NoResponse, 0, false, None, [];
    }

    method ParseHeader(data: seq<byte>) returns (result: ParseResult, used: nat)
      requires Valid() && state.InHeader?
      modifies this, headerParser, request
      ensures Valid() && headerParser == old(headerParser) && request == old(request)
      ensures Parsed(View(), result, used) == HeaderPart(env, old(View()), data)
    {
      hide Feed, ContentLength, ContentType, KeepAlive;
      var res, readEnd := headerParser.Parse(request, data);
      if res == Bad {
        response := BadRequest;
        return Error, readEnd;
      }
      if res == Indeterminate {
        assert readEnd == |data|;
        return Continue, |data|;
      }
      if request.verb != POST || request.uri != [SLASH] + env.httpPath {
        response := NotFound;
        return Error, readEnd;
      }
      var contentLength := ContentLength(request.View());
      if !contentLength.Found? || contentLength.value.None? {
        response := BadRequest;
        return Error, readEnd;
      }
      var length := contentLength.value.value;
      if length > MAX_CONTENT {
        response := BadRequest;
        return Error, readEnd;
      }
      contentRemaining := length;
      var contentType := ContentType(request.View());
      if !contentType.Found? {
        response := BadRequest;
        return Error, readEnd;
      }
      if contentType.value.Some? {
        var parts := contentType.value.value;
        if |parts| < 1 || |parts| > 2 || parts[0] != SOAP_XML {
          response := BadRequest;
          return Error, readEnd;
        }
        if |parts| == 2 && !(CHARSET <= parts[1]) {
          response := BadRequest;
          return Error, readEnd;
        }
      }
      contentParser := Some([]);
      keepAlive := KeepAlive(request.View());
      headerParser.Reset();
      state := InBody;
      return Continue, readEnd;
    }

    method ParseBody(data: seq<byte>) returns (result: ParseResult, used: nat)
      requires Valid() && state.InBody?
      modifies this
      ensures Valid() && headerParser == old(headerParser) && request == old(request)
      ensures Parsed(View(), result, used) == BodyPart(env, old(View()), data)
    {
      var chunkSize := if contentRemaining < |data| then contentRemaining else |data|;
      contentRemaining := contentRemaining - chunkSize;
      var chunk := Chunk(data[..chunkSize], contentRemaining == 0);
      var handed := contentParser.value + [chunk];
      contentParser, log := Some(handed), log + [chunk];
      if env.fails(handed) {
        response := BadRequest;
        return Error, chunkSize;
      }
      if contentRemaining == 0 {
        if !env.wellFormed(handed) {
          response := BadRequest;
          return Error, chunkSize;
        }
        var maybeReply := env.handle(handed);
        if maybeReply.None? {
          response := BadRequest;
          return Error, chunkSize;
        }
        response := Reply(maybeReply.value);
        state := InHeader;
        contentParser := None;
        return Done, chunkSize;
      }
      return Continue, |data|;
    }

    method ParseIncoming(data: seq<byte>) returns (result: ParseResult)
      requires Valid()
      modifies this, headerParser, request
      ensures Valid() && headerParser == old(headerParser) && request == old(request)
      ensures Handled(View(), result) == Incoming(env, old(View()), data)
    {
      hide Incoming, HeaderPart, BodyPart;
      var first := 0;
      while first != |data|
        invariant first <= |data| && Valid() && headerParser == old(headerParser) && request == old(request)
        invariant Incoming(env, View(), data[first..]) == Incoming(env, old(View()), data)
        decreases |data| - first
      {
        var res, used;
        ghost var rest := data[first..];
        IncomingStep(env, View(), rest);
        if state.InHeader? {
          res, used := ParseHeader(data[first..]);
        } else {
          res, used := ParseBody(data[first..]);
        }
        if res != Continue {
          return res;
        }
        assert rest[used..] == data[first + used..];
        first := first + used;
      }
      IncomingNothing(env, View());
      return Continue;
    }
  }
}
