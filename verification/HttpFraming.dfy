/**
 What reaches the XML parser from the first request of a connection, whichever way the
 bytes are split into reads.
 */
module HttpFraming {
  import opened Basics
  import opened HttpParser
  import opened HttpGrammar
  import opened HttpHeaders
  import opened HttpConnection

  ghost function Bytes(log: seq<Chunk>): seq<byte> {
    if log == [] then [] else Bytes(log[..|log| - 1]) + log[|log| - 1].data
  }

  lemma BytesSnoc(log: seq<Chunk>, c: Chunk)
    ensures Bytes(log + [c]) == Bytes(log) + c.data
  {
    assert (log + [c])[..|log|] == log;
  }

  /** The XML parser took every chunk but perhaps the last of `log`. */
  ghost predicate TookAllBut(env: Env, log: seq<Chunk>) {
    forall k :: 0 < k < |log| ==> !env.fails(log[..k])
  }

  /** Only the chunk that completes `n` bytes carries the last flag. */
  ghost predicate LastFlagExact(log: seq<Chunk>, n: nat) {
    forall i :: 0 <= i < |log| ==> (log[i].last <==> i == |log| - 1 && |Bytes(log)| == n)
  }

  /**
   Where the connection stands, as long as it asks for more, in terms of all the bytes so far;
   `fed` is what the header parser makes of them.
   */
  ghost predicate Waiting(env: Env, c: Conn, fed: Fed, stream: seq<byte>)
    requires fed.used <= |stream|
  {
    match fed.result
    case Bad => false
    case Indeterminate => c.state.InHeader? && c.parser == fed.parser && c.request == fed.request && c.log == []
    case Good =>
      match CheckHeader(env.httpPath, fed.request)
      case Reject(_, _) => false
      case Accept(n, keepAlive) =>
        && c.state.InBody? && c.keepAlive == keepAlive
        && WaitingBody(env, c, n, stream[fed.used..])
  }

  /** Waiting for the rest of the body, or for any byte at all if the body is empty. */
  ghost predicate WaitingBody(env: Env, c: Conn, n: nat, body: seq<byte>) {
    && (if n == 0 then c.log == [] else |body| < n)
    && c.content == Some(c.log) && c.remaining == n - |body|
    && Bytes(c.log) == body && LastFlagExact(c.log, n)
    && TookAllBut(env, c.log) && (c.log != [] ==> !env.fails(c.log))
  }

  /** What is known once the connection has something to answer. */
  ghost predicate Answered(env: Env, out: Handled, fed: Fed, stream: seq<byte>)
    requires fed.used <= |stream|
  {
    var c := out.conn;
    match fed.result
    case Indeterminate => false
    case Bad => out.result.Error? && c.response == BadRequest && c.log == []
    case Good =>
      match CheckHeader(env.httpPath, fed.request)
      case Reject(response, _) => out.result.Error? && c.response == response && c.log == []
      case Accept(n, keepAlive) => AnsweredBody(env, out, n, keepAlive, stream[fed.used..])
  }

  ghost predicate AnsweredBody(env: Env, out: Handled, n: nat, keepAlive: bool, body: seq<byte>) {
    var c := out.conn;
    && !out.result.Continue? && body != []
    && (n == 0 ==> c.log == [Chunk([], true)])
    && c.log != [] && |Bytes(c.log)| <= n && Bytes(c.log) <= body
    && LastFlagExact(c.log, n) && TookAllBut(env, c.log)
    && (!env.fails(c.log) ==> |Bytes(c.log)| == n)
    && (out.result.Done? <==> !env.fails(c.log) && env.wellFormed(c.log) && env.handle(c.log).Some?)
    && (if out.result.Done? then c.response == Reply(env.handle(c.log).value) && c.keepAlive == keepAlive
        else c.response == BadRequest)
  }

  ghost predicate Followed(env: Env, out: Handled, fed: Fed, stream: seq<byte>)
    requires fed.used <= |stream|
  {
    if out.result.Continue? then Waiting(env, out.conn, fed, stream) else Answered(env, out, fed, stream)
  }

  lemma ChunkAdded(env: Env, log: seq<Chunk>, chunk: Chunk, n: nat)
    requires LastFlagExact(log, n) && TookAllBut(env, log) && (log != [] ==> !env.fails(log))
    requires (log == [] || |Bytes(log)| < n) && |Bytes(log)| + |chunk.data| <= n
    requires chunk.last <==> |Bytes(log)| + |chunk.data| == n
    ensures var all := log + [chunk];
            && Bytes(all) == Bytes(log) + chunk.data
            && LastFlagExact(all, n) && TookAllBut(env, all)
  {
    var all := log + [chunk];
    BytesSnoc(log, chunk);
    forall k | 0 < k < |all|
      ensures !env.fails(all[..k])
    {
      assert all[..k] == log[..k];
      if k == |log| {
        assert log[..k] == log;
      }
    }
  }

  lemma BytesOfNothing()
    ensures Bytes([]) == []
  {
  }

  lemma BodyChunk(env: Env, c: Conn, n: nat, body: seq<byte>, data: seq<byte>)
    requires WaitingBody(env, c, n, body) && data != []
    ensures var one := BodyPart(env, c, data);
            if one.result.Continue? then
              one.conn == c.(remaining := one.conn.remaining, content := one.conn.content, log := one.conn.log) &&
              WaitingBody(env, one.conn, n, body + data)
            else AnsweredBody(env, Handled(one.conn, one.result), n, c.keepAlive, body + data)
  {
    hide Bytes, LastFlagExact, TookAllBut;
    BytesOfNothing();
    var size := if c.remaining < |data| then c.remaining else |data|;
    var chunk := Chunk(data[..size], c.remaining == size);
    ChunkAdded(env, c.log, chunk, n);
    assert body + data[..size] <= body + data;
    if n == 0 {
      assert data[..0] == [] && [] + [chunk] == [chunk];
    }
    if size == |data| {
      assert data[..size] == data;
    }
  }

  lemma IncomingBody(env: Env, c: Conn, data: seq<byte>)
    requires c.state.InBody? && c.content.Some? && data != []
    ensures var one := BodyPart(env, c, data); Incoming(env, c, data) == Handled(one.conn, one.result)
  {
    var one := BodyPart(env, c, data);
    if one.result.Continue? {
      assert data[one.used..] == [];
    }
  }

  lemma IncomingHeader(env: Env, c: Conn, data: seq<byte>)
    requires c.state.InHeader? && data != []
    ensures var one := HeaderPart(env, c, data);
            Incoming(env, c, data) ==
            if !one.result.Continue? || one.used == |data| then Handled(one.conn, one.result)
            else Incoming(env, one.conn, data[one.used..])
  {
    var one := HeaderPart(env, c, data);
    if one.used == |data| {
      assert data[one.used..] == [];
    }
  }

  lemma BodyMoves(env: Env, c: Conn, n: nat, body: seq<byte>, data: seq<byte>)
    requires c.state.InBody? && Sound(c) && WaitingBody(env, c, n, body) && data != []
    ensures var out := Incoming(env, c, data);
            if out.result.Continue? then
              out.conn.state.InBody? && out.conn.keepAlive == c.keepAlive && WaitingBody(env, out.conn, n, body + data)
            else AnsweredBody(env, out, n, c.keepAlive, body + data)
  {
    BodyChunk(env, c, n, body, data);
    IncomingBody(env, c, data);
    hide WaitingBody, AnsweredBody, BodyPart, Incoming;
  }

  lemma TailAppend(stream: seq<byte>, data: seq<byte>, k: nat)
    requires k <= |stream|
    ensures (stream + data)[k..] == stream[k..] + data
  {
  }

  lemma BodyRead(env: Env, c: Conn, fed: Fed, stream: seq<byte>, data: seq<byte>)
    requires fed.used <= |stream| && fed.result.Good?
    requires Waiting(env, c, fed, stream) && Sound(c) && data != []
    ensures Followed(env, Incoming(env, c, data), fed, stream + data)
  {
    hide CheckHeader, Incoming, WaitingBody, AnsweredBody;
    TailAppend(stream, data, fed.used);
    BodyMoves(env, c, CheckHeader(env.httpPath, fed.request).length, stream[fed.used..], data);
  }

  /** A read while the header is still being read, up to the end of the header at most. */
  lemma HeaderRead(env: Env, c: Conn, stream: seq<byte>, data: seq<byte>, fed: Fed, rest: Fed)
    requires c.state.InHeader? && c.log == [] && data != [] && rest == Feed(c.parser, c.request, data)
    requires fed == rest.(used := |stream| + rest.used)
    ensures Followed(env, Incoming(env, c, data), fed, stream + data)
  {
    hide CheckHeader, Feed;
    var one := HeaderPart(env, c, data);
    IncomingHeader(env, c, data);
    if rest.result.Indeterminate? {
    } else if one.result.Continue? {
      var body := data[one.used..];
      var head := stream + data[..one.used];
      assert Waiting(env, one.conn, fed, head) by {
        assert head[fed.used..] == [];
      }
      assert head + body == stream + data;
      if body != [] {
        BodyRead(env, one.conn, fed, head, body);
      } else {
        assert head + [] == head;
      }
    }
  }

  /** One more read. */
  lemma ReadFollowed(env: Env, c: Conn, rq: Request, stream: seq<byte>, data: seq<byte>)
    requires Waiting(env, c, Feed(FRESH, rq, stream), stream) && Sound(c)
    ensures Followed(env, Incoming(env, c, data), Feed(FRESH, rq, stream + data), stream + data)
  {
    var fed := Feed(FRESH, rq, stream);
    FeedAppend(FRESH, rq, stream, data);
    if data == [] {
      assert stream + data == stream;
    } else if fed.result.Good? {
      BodyRead(env, c, fed, stream, data);
    } else {
      HeaderRead(env, c, stream, data, Feed(FRESH, rq, stream + data), Feed(fed.parser, fed.request, data));
    }
  }

  /** Bytes that come after the answer was decided do not matter. */
  lemma AnswerStays(env: Env, out: Handled, rq: Request, stream: seq<byte>, more: seq<byte>)
    requires !out.result.Continue? && Followed(env, out, Feed(FRESH, rq, stream), stream)
    ensures Followed(env, out, Feed(FRESH, rq, stream + more), stream + more)
  {
    var fed := Feed(FRESH, rq, stream);
    FeedAppend(FRESH, rq, stream, more);
    assert (stream + more)[fed.used..] == stream[fed.used..] + more;
  }

  lemma {:induction false} DeliverFollowed(env: Env, c: Conn, rq: Request, stream: seq<byte>, pieces: seq<seq<byte>>)
    requires Waiting(env, c, Feed(FRESH, rq, stream), stream) && Sound(c)
    ensures var all := stream + Flatten(pieces);
            Followed(env, Deliver(env, c, pieces), Feed(FRESH, rq, all), all)
    decreases |pieces|
  {
    if pieces == [] {
      assert stream + Flatten(pieces) == stream;
    } else {
      var one := Incoming(env, c, pieces[0]);
      var read, later := stream + pieces[0], Flatten(pieces[1..]);
      assert read + later == stream + Flatten(pieces);
      ReadFollowed(env, c, rq, stream, pieces[0]);
      if one.result.Continue? {
        DeliverFollowed(env, one.conn, rq, read, pieces[1..]);
      } else {
        AnswerStays(env, one, rq, read, later);
      }
    }
  }

  /** The first request of a connection, however header and body are split into reads. */
  lemma FirstRequest(env: Env, rq: Request, pieces: seq<seq<byte>>)
    ensures var stream := Flatten(pieces); var fed := Feed(FRESH, rq, stream);
            Followed(env, Deliver(env, Opened(rq), pieces), fed, stream)
  {
    DeliverFollowed(env, Opened(rq), rq, [], pieces);
    assert [] + Flatten(pieces) == Flatten(pieces);
  }

  /** How the XML parser may answer is open, but it took every chunk of `log`. */
  ghost predicate Took(env: Env, log: seq<Chunk>) {
    log != [] ==> !env.fails(log)
  }

  /** The request header is complete, and a body of `n` bytes is announced and acceptable. */
  ghost predicate Announces(env: Env, rq: Request, stream: seq<byte>, n: nat, keepAlive: bool) {
    var fed := Feed(FRESH, rq, stream);
    fed.result.Good? && CheckHeader(env.httpPath, fed.request) == Accept(n, keepAlive)
  }

  ghost function Body(rq: Request, stream: seq<byte>): seq<byte> {
    stream[Feed(FRESH, rq, stream).used..]
  }

  /**
   Unless the XML parser refuses the last chunk it was given, the bytes handed over are exactly
   the announced ones after the blank line; the answer comes with the last of them, or with any
   byte after the blank line when none is announced.
   */
  lemma BodyHandedExactly(env: Env, rq: Request, pieces: seq<seq<byte>>, n: nat, keepAlive: bool)
    requires Announces(env, rq, Flatten(pieces), n, keepAlive)
    requires Took(env, Deliver(env, Opened(rq), pieces).conn.log)
    ensures var body := Body(rq, Flatten(pieces)); var out := Deliver(env, Opened(rq), pieces);
            && (out.result.Continue? <==> if n == 0 then body == [] else |body| < n)
            && Bytes(out.conn.log) == body[..if |body| < n then |body| else n]
            && LastFlagExact(out.conn.log, n)
  {
    FirstRequest(env, rq, pieces);
  }

  /**
   A request is answered as soon as its last announced byte is in, exactly when it announces at
   least one, however it is split into reads and whatever the XML parser says.
   */
  lemma AnsweredOnTimeIff(env: Env, rq: Request, pieces: seq<seq<byte>>, n: nat, keepAlive: bool)
    requires Announces(env, rq, Flatten(pieces), n, keepAlive) && |Body(rq, Flatten(pieces))| == n
    ensures Deliver(env, Opened(rq), pieces).result.Continue? <==> n == 0
  {
    FirstRequest(env, rq, pieces);
  }

  /** An empty body waits for one more byte: then the XML parser gets one empty last chunk, and there is an answer. */
  lemma EmptyBodyWaits(env: Env, rq: Request, pieces: seq<seq<byte>>, keepAlive: bool)
    requires Announces(env, rq, Flatten(pieces), 0, keepAlive)
    ensures var out := Deliver(env, Opened(rq), pieces);
            && (out.result.Continue? <==> Body(rq, Flatten(pieces)) == [])
            && out.conn.log == if out.result.Continue? then [] else [Chunk([], true)]
  {
    FirstRequest(env, rq, pieces);
  }

  // ----- from printed bytes to the answer -----

  /** A request to this path that announces `n` acceptable bytes and asks to keep the connection or not. */
  ghost predicate Wants(path: seq<byte>, m: Message, n: nat, keep: bool) {
    && m.verb == POST && m.uri == [SLASH] + path
    && LengthIs(m.headers, n) && n <= 262144 && TypeFits(m.headers)
    && keep == AsksToKeep(m.headers)
  }

  lemma PrintedHeader(env: Env, rq: Request, m: Message, body: seq<byte>)
    requires Valid(m) && rq.headers == []
    ensures var stream := Print(m) + body; var fed := Feed(FRESH, rq, stream);
            && fed.result.Good? && Body(rq, stream) == body
            && (forall n, keep :: CheckHeader(env.httpPath, fed.request) == Accept(n, keep) <==> Wants(env.httpPath, m, n, keep))
            && (CheckHeader(env.httpPath, fed.request).Reject? ==>
                  CheckHeader(env.httpPath, fed.request).response ==
                  if m.verb == POST && m.uri == [SLASH] + env.httpPath then BadRequest else NotFound)
  {
    PrintedIsAccepted(rq, m, body);
    var told := Feed(FRESH, rq, Print(m) + body).request;
    assert told.headers == [] + m.headers == m.headers;
    hide Feed, CheckHeader, Print, Valid, LengthIs, TypeFits, AsksToKeep;
    CheckHeaderIff(env.httpPath, told);
  }

  /**
   A printed request in any pieces. Wanted, it is answered when its announced bytes are in, and these are
   handed over; an answer leaves the connection kept exactly if it asked for that. Not wanted, it is refused
   and nothing is handed over.
   */
  lemma PrintedRequest(env: Env, rq: Request, m: Message, body: seq<byte>, pieces: seq<seq<byte>>)
    requires Valid(m) && rq.headers == [] && Flatten(pieces) == Print(m) + body
    ensures var out := Deliver(env, Opened(rq), pieces);
            && (forall n, keep :: Wants(env.httpPath, m, n, keep) ==>
                  && (|body| == n ==> (out.result.Continue? <==> n == 0))
                  && (Took(env, out.conn.log) ==>
                        && (out.result.Continue? <==> if n == 0 then body == [] else |body| < n)
                        && Bytes(out.conn.log) == body[..if |body| < n then |body| else n])
                  && (out.result.Done? ==> out.conn.keepAlive == keep))
            && ((forall n, keep :: !Wants(env.httpPath, m, n, keep)) ==>
                  && out.result.Error? && out.conn.log == []
                  && out.conn.response == if m.verb == POST && m.uri == [SLASH] + env.httpPath then BadRequest else NotFound)
  {
    PrintedHeader(env, rq, m, body);
    FirstRequest(env, rq, pieces);
    hide Feed, CheckHeader, Print, Valid, Wants, Deliver, Flatten, LastFlagExact, TookAllBut;
    var check := CheckHeader(env.httpPath, Feed(FRESH, rq, Print(m) + body).request);
    if check.Accept? {
      assert Wants(env.httpPath, m, check.length, check.keepAlive);
    }
  }

  // ----- such requests exist, for every length up to the largest -----

  /** A POST request with its length, and perhaps a content type and a Connection header. */
  ghost function Post(path: seq<byte>, n: nat, kind: Option<seq<byte>>, connection: Option<seq<byte>>): Message {
    Message(POST, [SLASH] + path, [49],
            [Header(CONTENT_LENGTH, Digits(n))] +
            (if kind.Some? then [Header(CONTENT_TYPE, kind.value)] else []) +
            (if connection.Some? then [Header(CONNECTION, connection.value)] else []))
  }

  ghost predicate IsLetter(c: byte) { c == 45 || 65 <= c <= 90 || 97 <= c <= 122 }

  lemma LettersAreTokens(s: seq<byte>)
    requires forall i :: 0 <= i < |s| ==> IsLetter(s[i])
    ensures AllTokens(s)
  {
  }

  lemma DigitsAreText(s: seq<byte>)
    requires AllDigits(s)
    ensures AllText(s)
  {
  }

  lemma OneHeader(h: Header)
    requires ValidHeader(h) && |h.name| + |h.value| <= MAX_HEADERS
    ensures HeadersSize([h]) <= MAX_HEADERS
  {
    assert [h][..0] == [] && HeadersSize([]) == 0;
  }

  lemma LengthIsValid(n: nat)
    requires n <= MAX_CONTENT
    ensures var h := Header(CONTENT_LENGTH, Digits(n)); ValidHeader(h) && HeadersSize([h]) <= MAX_HEADERS
  {
    hide Digits, Decimal, AllTokens, AllText, HeadersSize, AllDigits;
    var h := Header(CONTENT_LENGTH, Digits(n));
    DigitsTell(n);
    LettersAreTokens(h.name);
    DigitsAreText(h.value);
    OneHeader(h);
  }

  lemma PostIsValid(path: seq<byte>, n: nat)
    requires AllUri(path) && |path| < MAX_URI && n <= MAX_CONTENT
    ensures Valid(Post(path, n, None, None))
  {
    LengthIsValid(n);
    hide Digits, HeadersSize, ValidHeader;
    assert AllTokens(POST);
    assert AllUri([SLASH] + path);
    assert Post(path, n, None, None).headers == [Header(CONTENT_LENGTH, Digits(n))];
  }

  lemma PostNames(path: seq<byte>, n: nat, kind: Option<seq<byte>>, connection: Option<seq<byte>>)
    ensures var hs := Post(path, n, kind, connection).headers;
            && OnlyNamed(hs, CONTENT_LENGTH, 0) && hs[0].value == Digits(n)
            && (if kind.Some? then OnlyNamed(hs, CONTENT_TYPE, 1) && hs[1].value == kind.value
                else forall i :: !Named(hs, CONTENT_TYPE, i))
            && (forall v :: Header(CONNECTION, v) in hs <==> connection == Some(v))
  {
    assert CONTENT_TYPE != CONTENT_LENGTH && CONNECTION != CONTENT_LENGTH;
    assert CONTENT_TYPE != CONNECTION;
    var hs := Post(path, n, kind, connection).headers;
    if connection.Some? {
      assert hs[|hs| - 1] == Header(CONNECTION, connection.value);
    }
  }

  lemma PostWants(path: seq<byte>, n: nat, kind: Option<seq<byte>>, connection: Option<seq<byte>>)
    requires n <= 262144
    ensures forall k, keep :: Wants(path, Post(path, n, kind, connection), k, keep) <==>
                && k == n && (kind.Some? ==> SoapType(kind.value))
                && keep == (connection.Some? && Lists(connection.value, KEEP_ALIVE, COMMA, SP))
  {
    DigitsTell(n);
    PostNames(path, n, kind, connection);
    hide Digits, Decimal, AllDigits, SoapType, Lists, Named;
    var hs := Post(path, n, kind, connection).headers;
    assert forall i :: OnlyNamed(hs, CONTENT_LENGTH, i) ==> i == 0;
    assert kind.Some? ==> forall i :: OnlyNamed(hs, CONTENT_TYPE, i) ==> i == 1;
  }

  /**
   Sent in any pieces, a printed request with a body of the announced length is answered unless it is
   empty, and then with the next byte; a content type that is not the expected one is refused.
   */
  lemma PostAnsweredIff(env: Env, rq: Request, n: nat, kind: Option<seq<byte>>, connection: Option<seq<byte>>,
                        body: seq<byte>, pieces: seq<seq<byte>>)
    requires Valid(Post(env.httpPath, n, kind, connection)) && rq.headers == []
    requires |body| == n <= 262144 && Flatten(pieces) == Print(Post(env.httpPath, n, kind, connection)) + body
    ensures var out := Deliver(env, Opened(rq), pieces);
            if kind.Some? && !SoapType(kind.value) then out.result.Error? && out.conn.response == BadRequest
            else
              && (out.result.Continue? <==> n == 0)
              && (out.result.Done? ==>
                    out.conn.keepAlive == (connection.Some? && Lists(connection.value, KEEP_ALIVE, COMMA, SP)))
    ensures n == 0 ==> forall more: seq<byte> :: more != [] ==> !Deliver(env, Opened(rq), pieces + [more]).result.Continue?
  {
    var m := Post(env.httpPath, n, kind, connection);
    PostWants(env.httpPath, n, kind, connection);
    hide Print, Valid, Wants, Deliver, Lists, SoapType, Took, Post, Flatten;
    PrintedRequest(env, rq, m, body, pieces);
    if kind.None? || SoapType(kind.value) {
      var keep := connection.Some? && Lists(connection.value, KEEP_ALIVE, COMMA, SP);
      assert Wants(env.httpPath, m, n, keep);
    }
    if n == 0 {
      assert Print(m) + body == Print(m);
      forall more: seq<byte> | more != []
        ensures !Deliver(env, Opened(rq), pieces + [more]).result.Continue?
      {
        OneMore(env, rq, m, more, pieces);
      }
    }
  }

  lemma OneMore(env: Env, rq: Request, m: Message, more: seq<byte>, pieces: seq<seq<byte>>)
    requires Valid(m) && rq.headers == [] && more != [] && Flatten(pieces) == Print(m)
    requires forall n, keep :: Wants(env.httpPath, m, n, keep) ==> n == 0
    ensures !Deliver(env, Opened(rq), pieces + [more]).result.Continue?
  {
    hide Print, Valid, Wants, Deliver;
    FlattenAppend(pieces, [more]);
    assert Flatten([more]) == more + Flatten([more][1..]);
    PostNextByte(env, rq, m, more, pieces + [more]);
  }

  /** With an empty body announced, or refused, the byte after the blank line brings the answer. */
  lemma PostNextByte(env: Env, rq: Request, m: Message, more: seq<byte>, pieces: seq<seq<byte>>)
    requires Valid(m) && rq.headers == [] && more != [] && Flatten(pieces) == Print(m) + more
    requires forall n, keep :: Wants(env.httpPath, m, n, keep) ==> n == 0
    ensures !Deliver(env, Opened(rq), pieces).result.Continue?
  {
    PrintedHeader(env, rq, m, more);
    PrintedRequest(env, rq, m, more, pieces);
    hide Print, Valid, Wants, Deliver, Took, Feed, CheckHeader;
    var check := CheckHeader(env.httpPath, Feed(FRESH, rq, Print(m) + more).request);
    if check.Accept? {
      EmptyBodyWaits(env, rq, pieces, check.keepAlive);
    }
  }

  /** The ordinary request of a client, with 500 bytes of SOAP and a kept connection, is wanted. */
  lemma OrdinaryRequest(path: seq<byte>)
    requires AllUri(path) && |path| < MAX_URI
    ensures var m := Post(path, 500, Some(SOAP_XML), Some(KEEP_ALIVE)); Valid(m) && Wants(path, m, 500, true)
  {
    OrdinaryHeaders();
    OrdinaryLists();
    PostWants(path, 500, Some(SOAP_XML), Some(KEEP_ALIVE));
    hide Digits, HeadersSize, ValidHeader, Wants, Lists, SoapType;
    assert AllTokens(POST);
    assert AllUri([SLASH] + path);
    assert SoapType(SOAP_XML) by { OrdinaryType(); }
  }

  lemma OrdinaryType()
    ensures SoapType(SOAP_XML)
  {
  }

  lemma OrdinaryLists()
    ensures Lists(KEEP_ALIVE, KEEP_ALIVE, COMMA, SP)
  {
    assert ItemAt(KEEP_ALIVE, KEEP_ALIVE, COMMA, SP, 0);
  }

  lemma PrintableIsText(s: seq<byte>)
    requires forall i :: 0 <= i < |s| ==> 32 <= s[i] <= 126
    ensures AllText(s)
  {
  }

  lemma ThreeHeaders(a: Header, b: Header, c: Header)
    ensures HeadersSize([a, b, c]) ==
            |a.name| + |a.value| + |b.name| + |b.value| + |c.name| + |c.value|
  {
    assert [a, b, c][..2] == [a, b] && [a, b][..1] == [a] && [a][..0] == [];
    assert HeadersSize([a]) == |a.name| + |a.value|;
    assert HeadersSize([a, b]) == HeadersSize([a]) + |b.name| + |b.value|;
  }

  lemma OrdinaryHeaders()
    ensures var hs := Post([], 500, Some(SOAP_XML), Some(KEEP_ALIVE)).headers;
            (forall h :: h in hs ==> ValidHeader(h)) && HeadersSize(hs) <= MAX_HEADERS
  {
    hide Digits, HeadersSize, AllTokens, AllText, AllDigits, Decimal;
    var a, b, c := Header(CONTENT_LENGTH, Digits(500)), Header(CONTENT_TYPE, SOAP_XML), Header(CONNECTION, KEEP_ALIVE);
    DigitsTell(500);
    LengthIsValid(500);
    LettersAreTokens(CONTENT_TYPE);
    LettersAreTokens(CONNECTION);
    PrintableIsText(SOAP_XML);
    PrintableIsText(KEEP_ALIVE);
    ThreeHeaders(a, b, c);
    assert Post([], 500, Some(SOAP_XML), Some(KEEP_ALIVE)).headers == [a, b, c];
  }
}
