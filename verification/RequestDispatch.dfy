/** One connection from the socket to the applications: the HTTP server frames and parses the
    request, the body is read from the connection, and the DIAL server answers. */
module RequestDispatch {
  import opened Bytes
  import opened Wrappers
  import opened RequestHead
  import opened Tokenizer
  import opened HttpHead
  import opened Connection
  import opened UrlCodec
  import opened HttpServer
  import opened DialApps
  import DialServer

  /** The request of a call, with what was read of its body. */
  function InfoOf(s: Served, body: Source, local: bool, legacy: bool): DialServer.Info
    requires s.Call?
  {
    DialServer.Info(s.verb, s.target, s.query, s.headers, body, local, legacy)
  }

  method ReadHeader(b: array<byte>, slot: Slot, ghost h: Header) returns (header: Header)
    requires HoldsHeader(b[..], slot, h, 0, b.Length)
    ensures header == h
  {
    var name := ReadCString(b, slot.nameAt, h.name);
    var value := ReadCString(b, slot.valueAt, h.value);
    header := Header(name, value);
  }

  method ReadHeaders(b: array<byte>, slots: seq<Slot>, ghost hs: seq<Header>) returns (headers: seq<Header>)
    requires HoldsHeaders(b[..], slots, hs, 0, b.Length)
    ensures headers == hs
  {
    headers := [];
    while |headers| < |slots|
      invariant |headers| <= |slots| && headers == hs[..|headers|]
    {
      var h := ReadHeader(b, slots[|headers|], hs[|headers|]);
      headers := headers + [h];
    }
  }

  method ReadQuery(b: array<byte>, at: nat, ghost query: Option<Text>) returns (r: Option<Text>)
    requires query == None <==> at == 0
    requires query.Some? ==> IsString(b[..], at, query.value)
    ensures r == query
  {
    r := None;
    if at != 0 {
      var text := ReadCString(b, at, query.value);
      r := Some(text);
    }
  }

  lemma StringIsNulFree(b: Text, p: nat, t: Text)
    requires IsString(b, p, t)
    ensures NulFree(t)
  {
    forall c | c in t
      ensures c != NUL
    {
      var i :| 0 <= i < |t| && t[i] == c;
      assert b[p + i] == t[i];
    }
  }

  /** What the callback is given: the strings of the call that stand in the buffer. */
  method ReadCall(b: array<byte>, outcome: HttpServer.Outcome, body: Source, local: bool, legacy: bool,
                  ghost served: Served)
    returns (info: DialServer.Info)
    requires served.Call? && Delivers(b[..], outcome, served)
    ensures info == InfoOf(served, body, local, legacy) && NulFree(info.uri)
  {
    StringIsNulFree(b[..], outcome.info.uriAt, served.target);
    var verb := ReadCString(b, outcome.info.verbAt, served.verb);
    var uri := ReadCString(b, outcome.info.uriAt, served.target);
    var query := ReadQuery(b, outcome.queryAt, served.query);
    var headers := ReadHeaders(b, outcome.info.slots, served.headers);
    info := DialServer.Info(verb, uri, query, headers, body, local, legacy);
  }

  /** What a read of the body gives: nothing if its assertion fails, and otherwise the beginning of
      what was sent; on an unbroken connection all that fits. */
  predicate IsRead(body: Source, sent: Text, contentLen: int, broken: bool) {
    if ReadAsserts(contentLen, 0)
    then body.Some? && body.value <= sent && (!broken ==> body.value == Take(sent, BODY_SIZE))
    else body == None
  }

  /** The body of a posted request is read before the handler runs, up to the size of its buffer. */
  method ReadBody(conn: Conn, verb: Text) returns (body: Source)
    requires conn.consumed == 0 && 0 <= conn.requestLen <= |conn.stream|
    requires conn.contentLen >= -1 ==> conn.BodyValid()
    modifies conn`consumed, conn.sock
    ensures verb == POST ==>
              IsRead(body, BodyOf(conn.stream, conn.requestLen, conn.contentLen), conn.contentLen, conn.sock.broken)
    ensures verb == POST && conn.contentLen >= -1 ==>
              body.Some? && |body.value| == old(conn.Readable(BODY_SIZE))
    ensures old(conn.sock.broken) ==> conn.sock.broken
  {
    body := None;
    if verb == POST && ReadAsserts(conn.contentLen, conn.consumed) {
      var piece := conn.ReadMeasured(BODY_SIZE);
      body := Some(piece);
    }
  }

  /** How much is read of a posted body when the first receive brought the whole head: what came with
      the head, and what the network delivers of the rest. */
  function PostedPart(script: seq<nat>, sent: nat, headLen: nat, contentLen: int): nat
    requires script != [] && headLen <= script[0] <= sent
  {
    var want := Min(BODY_SIZE, Max(0, contentLen));
    var held := Min(want, script[0] - headLen);
    held + Delivered(script[1..], want - held, sent - script[0])
  }

  lemma ReadableIsPosted(conn: Conn, script: seq<nat>)
    requires conn.BodyValid() && conn.consumed == 0
    requires script != [] && conn.dataLen == script[0] && conn.sock.script == script[1..]
    ensures conn.requestLen <= script[0] <= |conn.stream|
    ensures conn.Readable(BODY_SIZE) == PostedPart(script, |conn.stream|, conn.requestLen, conn.contentLen)
  {
  }

  method Accept(conn: Conn, room: nat) returns (outcome: HttpServer.Outcome)
    requires conn.Fresh()
    modifies conn, conn.sock, conn.buf
    ensures outcome.Callback? ==> 0 < conn.requestLen == FramedLen(conn.stream, conn.buf.Length) <= |conn.stream|
    ensures outcome.Callback? ==> Called(conn, outcome, ServeHead(conn.stream[..conn.requestLen], room))
    ensures !conn.sock.broken && CleanHead(conn.stream, conn.buf.Length) ==>
              (outcome.Callback? <==> Serve(conn.stream, conn.buf.Length, room).Call?)
    ensures HeadArrivesAtOnce(conn.stream, conn.buf.Length, old(conn.sock.script)) ==>
              && 0 < conn.requestLen == FramedLen(conn.stream, conn.buf.Length) <= |conn.stream|
              && (outcome.Callback? <==> ServeHead(conn.stream[..conn.requestLen], room).Call?)
    ensures HeadArrivesAtOnce(conn.stream, conn.buf.Length, old(conn.sock.script))
            && outcome.Callback? && conn.contentLen >= -1 ==>
              && conn.requestLen <= old(conn.sock.script)[0] <= |conn.stream|
              && conn.Readable(BODY_SIZE)
                 == PostedPart(old(conn.sock.script), |conn.stream|, conn.requestLen, conn.contentLen)
  {
    outcome := ProcessRequest(conn, room);
    if !conn.sock.broken && CleanHead(conn.stream, conn.buf.Length) {
      CallbackMeansCall(conn.buf[..], outcome, Serve(conn.stream, conn.buf.Length, room));
    }
    if HeadArrivesAtOnce(conn.stream, conn.buf.Length, old(conn.sock.script)) {
      CallbackMeansCall(conn.buf[..], outcome, ServeHead(conn.stream[..conn.requestLen], room));
      if outcome.Callback? && conn.contentLen >= -1 {
        ReadableIsPosted(conn, old(conn.sock.script));
      }
    }
  }

  /** `info` is the request of the call, with what was read of the body that was sent. */
  ghost predicate Arrives(served: Served, sent: Text, broken: bool, info: DialServer.Info) {
    && served.Call? && info == InfoOf(served, info.body, info.local, info.legacy)
    && (served.verb == POST ==> IsRead(info.body, sent, served.contentLen, broken))
  }

  /** The request of the callback is taken out of the buffer, and a posted body read. */
  method TakeRequest(conn: Conn, outcome: HttpServer.Outcome, local: bool, legacy: bool, ghost served: Served)
    returns (info: DialServer.Info)
    requires Called(conn, outcome, served) && 0 <= conn.requestLen <= |conn.stream|
    modifies conn`consumed, conn.sock
    ensures info.local == local && info.legacy == legacy && NulFree(info.uri)
    ensures Arrives(served, BodyOf(conn.stream, conn.requestLen, served.contentLen), conn.sock.broken, info)
    ensures served.verb == POST && conn.contentLen >= -1 ==>
              info.body.Some? && |info.body.value| == old(conn.Readable(BODY_SIZE))
    ensures old(conn.sock.broken) ==> conn.sock.broken
  {
    info := ReadCall(conn.buf, outcome, None, local, legacy, served);
    var body := ReadBody(conn, info.verb);
    info := info.(body := body);
  }

  /** The connection up to the DIAL server: the request that it is for, if any. */
  method Receive(conn: Conn, room: nat, local: bool, legacy: bool) returns (request: Option<DialServer.Info>)
    requires conn.Fresh()
    modifies conn, conn.sock, conn.buf
    ensures request.Some? ==>
              request.value.local == local && request.value.legacy == legacy && NulFree(request.value.uri)
    ensures request.Some? ==>
              && 0 < conn.requestLen == FramedLen(conn.stream, conn.buf.Length) <= |conn.stream|
              && ServeHead(conn.stream[..conn.requestLen], room).Call?
              && Arrives(ServeHead(conn.stream[..conn.requestLen], room),
                         BodyOf(conn.stream, conn.requestLen,
                                ServeHead(conn.stream[..conn.requestLen], room).contentLen),
                         conn.sock.broken, request.value)
    ensures !conn.sock.broken && CleanHead(conn.stream, conn.buf.Length) ==>
              (request.Some? <==> Serve(conn.stream, conn.buf.Length, room).Call?)
    ensures HeadArrivesAtOnce(conn.stream, conn.buf.Length, old(conn.sock.script)) ==>
              && 0 < conn.requestLen == FramedLen(conn.stream, conn.buf.Length) <= |conn.stream|
              && (request.Some? <==> ServeHead(conn.stream[..conn.requestLen], room).Call?)
    ensures HeadArrivesAtOnce(conn.stream, conn.buf.Length, old(conn.sock.script))
            && request.Some? && request.value.verb == POST && conn.contentLen >= -1 ==>
              && request.value.body.Some? && conn.requestLen <= old(conn.sock.script)[0]
              && |request.value.body.value|
                 == PostedPart(old(conn.sock.script), |conn.stream|, conn.requestLen, conn.contentLen)
    ensures request.Some? ==> conn.contentLen == ServeHead(conn.stream[..conn.requestLen], room).contentLen
  {
    request := None;
    var outcome := Accept(conn, room);
    if outcome.Callback? {
      var info := TakeRequest(conn, outcome, local, legacy, ServeHead(conn.stream[..conn.requestLen], room));
      request := Some(info);
    }
  }

  /** The DIAL server's part. */
  method Reply(server: DialServer.Server, request: Option<DialServer.Info>, answers: Answers)
    returns (code: int, shown: Option<Document>)
    requires server.Valid() && !server.locked && (request.Some? ==> NulFree(request.value.uri))
    modifies server, server.spine
    ensures server.Valid() && !server.locked && server.spine == old(server.spine)
    ensures request == None ==> server.list == old(server.list) && server.Now() == old(server.Now())
    ensures request.Some? ==>
              (DialServer.Outcome(server.list, code, shown, server.Now())
               == DialServer.Answered(old(server.list), request.value, answers, old(server.Now())))
  {
    code, shown := 0, None;
    if request.Some? {
      code, shown := server.RequestHandler(DialServer.NewRequest, request.value, answers);
    }
  }
}
