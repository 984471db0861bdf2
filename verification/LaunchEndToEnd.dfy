/** One launch through every layer: the bytes of a POST request, split by the network in any way,
    end in the start callback with the body that was posted, or, when the connection breaks, with
    the beginning of it. */
module LaunchEndToEnd {
  import opened Bytes
  import opened Wrappers
  import opened RequestHead
  import opened Tokenizer
  import opened HttpHead
  import opened HeadRoundTrip
  import opened UriPath
  import opened UrlCodec
  import opened HttpServer
  import opened RequestDelivery
  import opened DialApps
  import opened DialUris
  import opened DialRuns
  import opened Connection
  import opened RequestDispatch
  import DialServer

  /** The bytes of a path that are sent as they are: the marks that need no escape, and the slash. */
  predicate PathSafe(c: byte) {
    UrlSafe(c) || c == '/'
  }

  /** The URI under which a client addresses an application. */
  function AppUri(name: Text): Text {
    PercentEncode(APPS_URI + name, PathSafe, false, false)
  }

  /** The path of the application is one that the path cleaner does not change. */
  predicate IsAddressable(name: Text) {
    IsAppName(name) && NulFree(name) && CleanPath(APPS_URI + name) == APPS_URI + name
  }

  /** The value of a header that can be sent. */
  predicate IsHeaderValue(t: Text) {
    (forall c <- t :: !Forbidden(c) && c !in CRLF) && (t != [] ==> t[0] != ' ')
  }

  function LaunchHeaders(host: Text, length: Text): seq<Header> {
    [Header(HOST, host), Header(CONTENT_LENGTH, length)]
  }

  function LaunchRequest(name: Text, host: Text, length: Text): Request {
    Request(POST, AppUri(name), HTTP11, LaunchHeaders(host, length))
  }

  /** Neither defect starts inside a text without separators. */
  lemma {:induction false} DefectsAreBehind(w: Text, t: Text)
    requires forall c <- w :: !IsSeparator(c)
    ensures HasDotDot(w + t) <==> HasDotDot(t)
    ensures HasDoubleSeparator(w + t) <==> HasDoubleSeparator(t)
  {
    if w == [] {
      assert w + t == t;
    } else {
      assert !IsSeparator(w[0]) && (w + t)[0] == w[0] && (w + t)[1..] == w[1..] + t;
      DefectsAreBehind(w[1..], t);
    }
  }

  lemma NoDefectAtSlash(t: Text)
    requires t != [] && !IsSeparator(t[0]) && t[0] != '.'
    ensures HasDotDot(['/'] + t) <==> HasDotDot(t)
    ensures HasDoubleSeparator(['/'] + t) <==> HasDoubleSeparator(t)
  {
    assert (['/'] + t)[1..] == t;
  }

  /** Among the names without a separator, those that do not start with a double dot. */
  lemma AddressableExactly(name: Text)
    requires IsAppName(name) && NulFree(name) && '\\' !in name
    ensures IsAddressable(name) <==> !(['.', '.'] <= name)
  {
    var apps, tail := APPS_URI[1..5], ['/'] + name;
    CleanExactly(APPS_URI + name);
    assert APPS_URI + name == ['/'] + (apps + tail);
    NoDefectAtSlash(apps + tail);
    DefectsAreBehind(apps, tail);
    DefectsAreBehind(name, []);
    assert name + [] == name && tail[1..] == name && name[0] in name;
    assert ['.', '.'] <= name <==> |name| >= 2 && name[0] == '.' && name[1] == '.';
  }

  /** A request for that URI is about the application exactly when the name is addressable; otherwise
      it is about what the cleaner leaves of the path. */
  lemma AppUriArrivesExactly(name: Text)
    requires IsAppName(name) && NulFree(name)
    ensures Target(AppUri(name)) == CleanPath(APPS_URI + name) && Query(AppUri(name)) == None
    ensures Target(AppUri(name)) == APPS_URI + name <==> IsAddressable(name)
  {
    var path := APPS_URI + name;
    EncodedPathArrives(path, PathSafe, false);
    EncodedPathHasNoQuestion(path, PathSafe, false);
    CSpanIs(AppUri(name), |AppUri(name)|, QUESTION);
  }

  // ---------- The head can be sent ----------

  predicate Legible(t: Text) {
    forall c <- t :: !Forbidden(c)
  }

  lemma LegibleParts(a: Text, b: Text)
    requires Legible(a) && Legible(b)
    ensures Legible(a + b)
  {
  }

  lemma LegibleHeader(h: Header)
    requires Legible(h.name) && Legible(h.value)
    ensures Legible(HeaderLine(h) + CRLF)
  {
  }

  lemma DecimalIsValue(n: nat)
    ensures IsHeaderValue(Decimal(n)) && Legible(Decimal(n))
  {
    DecimalDigits(n);
    assert Decimal(n)[0] in Decimal(n);
  }

  lemma LaunchHeadersAreLegible(host: Text, length: Text)
    requires IsHeaderValue(host) && IsHeaderValue(length)
    ensures Legible(PrintHeaders(LaunchHeaders(host, length)))
  {
    var h, l := Header(HOST, host), Header(CONTENT_LENGTH, length);
    LegibleHeader(h);
    LegibleHeader(l);
    assert [h, l][1..] == [l] && [l][1..] == [];
    assert PrintHeaders([l]) == HeaderLine(l) + CRLF + [];
    LegibleParts(HeaderLine(l) + CRLF, []);
    LegibleParts(HeaderLine(h) + CRLF, PrintHeaders([l]));
    assert PrintHeaders([h, l]) == HeaderLine(h) + CRLF + PrintHeaders([l]);
  }

  lemma LegibleHead(r: Request)
    requires r.Request? && Legible(r.verb) && Legible(r.uri) && Legible(r.version) && Legible(PrintHeaders(r.headers))
    ensures !HasForbidden(PrintHead(r))
  {
    assert Legible(RequestLine(r));
    LegibleParts(RequestLine(r) + CRLF, PrintHeaders(r.headers));
    LegibleParts(RequestLine(r) + CRLF + PrintHeaders(r.headers), CRLF);
    assert Legible(PrintHead(r));
  }

  lemma LaunchHeadersAreValid(host: Text, length: Text)
    requires IsHeaderValue(host) && IsHeaderValue(length)
    ensures ValidHeaders(LaunchHeaders(host, length))
  {
    var h, l := Header(HOST, host), Header(CONTENT_LENGTH, length);
    ValidNamedHeader(h);
    ValidNamedHeader(l);
    assert [h, l][1..] == [l] && [l][1..] == [];
    assert ValidHeaders([l]);
  }

  lemma ValidNamedHeader(h: Header)
    requires (h.name == HOST || h.name == CONTENT_LENGTH) && IsHeaderValue(h.value)
    ensures ValidHeader(h)
  {
  }

  lemma LaunchIsValid(name: Text, host: Text, length: Text)
    requires IsHeaderValue(host) && IsHeaderValue(length)
    ensures ValidRequest(LaunchRequest(name, host, length))
  {
    EncodedBytes(APPS_URI + name, PathSafe, false, false);
    LaunchHeadersAreValid(host, length);
  }

  lemma LaunchIsSendable(name: Text, host: Text, length: Text, capacity: nat)
    requires IsHeaderValue(host) && IsHeaderValue(length)
    requires |PrintHead(LaunchRequest(name, host, length))| <= capacity
    ensures Sendable(LaunchRequest(name, host, length), capacity)
  {
    var r := LaunchRequest(name, host, length);
    LaunchIsValid(name, host, length);
    EncodedBytes(APPS_URI + name, PathSafe, false, false);
    assert Legible(r.uri);
    LaunchHeadersAreLegible(host, length);
    LegibleHead(r);
  }

  lemma LaunchHeadersAreFound(host: Text, length: Text)
    ensures var hs := LaunchHeaders(host, length);
            && FindHeader(hs, CONTENT_LENGTH) == Some(length)
            && LastHeader(hs, HOST, HOST_LOWER) == Some(host) && LastHeader(hs, ORIGIN, ORIGIN_LOWER) == None
  {
    var h, l := Header(HOST, host), Header(CONTENT_LENGTH, length);
    var hs := [h, l];
    assert |Lower(HOST)| != |Lower(CONTENT_LENGTH)|;
    assert hs[1..] == [l] && hs[..1] == [h] && [h][..0] == [];
    assert FindHeader([l], CONTENT_LENGTH) == Some(length);
    assert LastHeader([h], HOST, HOST_LOWER) == Some(host);
    assert LastHeader([], ORIGIN, ORIGIN_LOWER) == None && LastHeader([h], ORIGIN, ORIGIN_LOWER) == None;
  }

  // ---------- The launch ----------

  function LaunchCall(name: Text, host: Text, length: Text, n: int): Served {
    Call(POST, APPS_URI + name, None, LaunchHeaders(host, length), n)
  }

  /** A launch request is served to the DIAL server, its head intact, for every way the socket splits
      the stream, with the length that it announces. */
  lemma LaunchIsServed(name: Text, host: Text, length: Text, body: Text, capacity: nat, room: nat)
    requires IsAddressable(name) && IsHeaderValue(host) && IsHeaderValue(length)
    requires |PrintHead(LaunchRequest(name, host, length))| <= capacity && room >= 2
    ensures CleanHead(PrintHead(LaunchRequest(name, host, length)) + body, capacity)
    ensures Serve(PrintHead(LaunchRequest(name, host, length)) + body, capacity, room)
         == LaunchCall(name, host, length, StrToLL(length))
  {
    var r := LaunchRequest(name, host, length);
    LaunchIsSendable(name, host, length, capacity);
    PrintedRequestIsServed(r, body, capacity, room);
    assert r.headers[..Min(room, |r.headers|)] == r.headers;
    AppUriArrivesExactly(name);
    LaunchHeadersAreFound(host, length);
  }

  /** A client can announce any number below -1, and the first read of the body then fails its
      assertion. */
  lemma NegativeLaunchIsServed(name: Text, host: Text, n: nat, body: Text, capacity: nat, room: nat)
    requires IsAddressable(name) && IsHeaderValue(host) && 1 < n <= LLONG_MAX
    requires |PrintHead(LaunchRequest(name, host, Negative(n)))| <= capacity && room >= 2
    ensures Serve(PrintHead(LaunchRequest(name, host, Negative(n))) + body, capacity, room)
         == LaunchCall(name, host, Negative(n), -(n as int))
    ensures !ReadAsserts(-(n as int), 0)
  {
    DecimalIsValue(n);
    NegativeIsRead(n);
    LaunchIsServed(name, host, Negative(n), body, capacity, room);
  }

  /** Such a launch is one of the requests that `RequestDelivery.ServeAndDiscard` is about: for an
      application that is not registered its body is never read. */
  lemma NegativeLaunchIsNegative(name: Text, host: Text, n: nat, capacity: nat, room: nat)
    requires IsAddressable(name) && IsHeaderValue(host) && 1 < n <= INT_MAX
    requires |PrintHead(LaunchRequest(name, host, Negative(n)))| <= capacity && room >= 2
    ensures IsNegative(LaunchRequest(name, host, Negative(n)), capacity, room, n)
  {
    DecimalIsValue(n);
    LaunchIsSendable(name, host, Negative(n), capacity);
    LaunchHeadersAreFound(host, Negative(n));
    assert LaunchHeaders(host, Negative(n))[..2] == LaunchHeaders(host, Negative(n));
  }

  // ---------- A request without headers ----------

  function BareRequest(verb: Text, name: Text): Request {
    Request(verb, AppUri(name), HTTP11, [])
  }

  lemma BareRequestIsSendable(verb: Text, name: Text, capacity: nat)
    requires verb in ["GET", "POST", "DELETE", "OPTIONS"] && |PrintHead(BareRequest(verb, name))| <= capacity
    ensures Sendable(BareRequest(verb, name), capacity)
  {
    var r := BareRequest(verb, name);
    EncodedBytes(APPS_URI + name, PathSafe, false, false);
    assert Legible(r.verb) && Legible(r.uri) && PrintHeaders([]) == [];
    LegibleHead(r);
  }

  lemma BareRequestIsServed(verb: Text, name: Text, body: Text, capacity: nat, room: nat)
    requires verb in ["GET", "POST", "DELETE", "OPTIONS"] && IsAddressable(name)
    requires |PrintHead(BareRequest(verb, name))| <= capacity
    ensures Serve(PrintHead(BareRequest(verb, name)) + body, capacity, room)
         == Call(verb, APPS_URI + name, None, [], -1)
  {
    BareRequestIsSendable(verb, name, capacity);
    PrintedRequestIsServed(BareRequest(verb, name), body, capacity, room);
    AppUriArrivesExactly(name);
  }

  lemma RunNameOverruns()
    ensures IsAddressable(RUN_NAME) && AppUri(RUN_NAME) == APPS_URI + RUN_NAME && !InRange(APPS_URI + RUN_NAME)
  {
    hide PercentEncode, CleanPath;
    SafeTextIsItself(APPS_URI + RUN_NAME, PathSafe, false);
    assert !(['.', '.'] <= RUN_NAME) by {
      assert RUN_NAME[0] == 'r';
    }
    AddressableExactly(RUN_NAME);
    SlashOnlyInPrefix(RUN_NAME);
  }

  /** A request for `/apps/run` reaches the handler, which takes it for the run URI of an application
      with a name of -1 bytes. */
  lemma RunAloneOverruns(verb: Text, body: Text, capacity: nat, room: nat)
    requires verb in ["GET", "POST", "DELETE", "OPTIONS"] && |PrintHead(BareRequest(verb, RUN_NAME))| <= capacity
    ensures BareRequest(verb, RUN_NAME).uri == APPS_URI + RUN_NAME
    ensures Serve(PrintHead(BareRequest(verb, RUN_NAME)) + body, capacity, room)
         == Call(verb, APPS_URI + RUN_NAME, None, [], -1)
    ensures !InRange(APPS_URI + RUN_NAME)
  {
    RunNameOverruns();
    BareRequestIsServed(verb, RUN_NAME, body, capacity, room);
  }

  // ---------- A launch over a connection ----------

  /** What a client sends to launch an application with this body. */
  function LaunchHead(name: Text, host: Text, body: Text): Text {
    PrintHead(LaunchRequest(name, host, Decimal(|body|)))
  }

  ghost predicate Launchable(name: Text, host: Text, body: Text, capacity: nat, room: nat) {
    && IsAddressable(name) && IsHeaderValue(host)
    && |LaunchHead(name, host, body)| <= capacity && room >= 2 && |body| <= LLONG_MAX
  }

  lemma BodyBehind(head: Text, body: Text)
    ensures BodyOf(head + body, |head|, |body|) == body
  {
  }

  /** The first receive brings the head, and what it can of the body. */
  predicate HeadComesFirst(script: seq<nat>, head: Text, body: Text, capacity: nat) {
    script != [] && |head| <= script[0] <= Min(capacity, |head| + |body|)
  }

  predicate IsPosted(call: Served, body: Text) {
    call.Call? && call.verb == POST && call.contentLen == |body|
  }

  /** A posted request with this head and this body is for the callback, whatever the packets. */
  ghost predicate Carries(head: Text, body: Text, capacity: nat, room: nat, call: Served) {
    && IsPosted(call, body)
    && FramedLen(head + body, capacity) == |head| > 0 && CleanHead(head + body, capacity)
    && ServeHead((head + body)[..|head|], room) == call && Serve(head + body, capacity, room) == call
    && BodyOf(head + body, |head|, |body|) == body
  }

  lemma PrintedRequestIsCarried(r: Request, body: Text, capacity: nat, room: nat)
    requires Sendable(r, capacity) && IsPosted(Serve(PrintHead(r) + body, capacity, room), body)
    ensures Carries(PrintHead(r), body, capacity, room, Serve(PrintHead(r) + body, capacity, room))
  {
    PrintedHeadIsFramed(r, body, capacity);
    HeadIsServed(PrintHead(r) + body, capacity, room, |PrintHead(r)|);
    BodyBehind(PrintHead(r), body);
  }

  lemma LaunchIsPosted(name: Text, host: Text, body: Text, capacity: nat, room: nat)
    requires Launchable(name, host, body, capacity, room)
    ensures Sendable(LaunchRequest(name, host, Decimal(|body|)), capacity)
    ensures Serve(LaunchHead(name, host, body) + body, capacity, room)
         == LaunchCall(name, host, Decimal(|body|), |body|)
  {
    var length := Decimal(|body|);
    DecimalIsValue(|body|);
    DecimalRoundTrip(|body|);
    LaunchIsSendable(name, host, length, capacity);
    LaunchIsServed(name, host, length, body, capacity, room);
  }

  /** The request that reaches the DIAL server, with what was read of its body. */
  function LaunchInfo(name: Text, host: Text, body: Text, got: Text, local: bool, legacy: bool): DialServer.Info {
    DialServer.Info(POST, APPS_URI + name, None, LaunchHeaders(host, Decimal(|body|)), Some(got), local, legacy)
  }

  lemma PrintedHeadArrivesAtOnce(r: Request, body: Text, capacity: nat, script: seq<nat>)
    requires Sendable(r, capacity) && HeadComesFirst(script, PrintHead(r), body, capacity)
    ensures HeadArrivesAtOnce(PrintHead(r) + body, capacity, script)
  {
    var head, k := PrintHead(r), script[0] - |PrintHead(r)|;
    PrintedHeadIsFound(r, body[..k]);
    assert (head + body)[..|head| + k] == head + body[..k];
  }

  /** The request has as much of the body as the network delivers then. */
  predicate IsPart(script: seq<nat>, head: Text, body: Text, request: Option<DialServer.Info>) {
    && request.Some? && request.value.body.Some?
    && script != [] && |head| <= script[0] <= |head + body|
    && |request.value.body.value| == PostedPart(script, |head + body|, |head|, |body|)
  }

  /** The connection delivers such a request: all of it unless it breaks, and otherwise either nothing
      or a request with the beginning of the body. When the head comes first, the rest of the script
      decides how long the beginning is. */
  method ReceivePosted(conn: Conn, room: nat, local: bool, legacy: bool, ghost r: Request, ghost head: Text,
                       ghost body: Text, ghost call: Served)
    returns (request: Option<DialServer.Info>)
    requires conn.Fresh() && conn.stream == head + body
    requires Sendable(r, conn.buf.Length) && head == PrintHead(r)
    requires call == Serve(head + body, conn.buf.Length, room) && IsPosted(call, body)
    modifies conn, conn.sock, conn.buf
    ensures request == None ==> conn.sock.broken
    ensures request.Some? ==>
              && request.value == InfoOf(call, request.value.body, local, legacy)
              && IsRead(request.value.body, body, |body|, conn.sock.broken)
    ensures HeadComesFirst(old(conn.sock.script), head, body, conn.buf.Length) ==>
              IsPart(old(conn.sock.script), head, body, request)
  {
    if HeadComesFirst(conn.sock.script, head, body, conn.buf.Length) {
      PrintedHeadArrivesAtOnce(r, body, conn.buf.Length, conn.sock.script);
    }
    PrintedRequestIsCarried(r, body, conn.buf.Length, room);
    request := Receive(conn, room, local, legacy);
    if HeadComesFirst(old(conn.sock.script), head, body, conn.buf.Length) {
      assert request.Some? && request.value.verb == call.verb;
      assert conn.requestLen == |head| && conn.contentLen == |body|;
    }
  }

  /** The same for a launch. */
  method ReceiveLaunch(conn: Conn, room: nat, local: bool, legacy: bool, ghost name: Text, ghost host: Text,
                       ghost body: Text)
    returns (request: Option<DialServer.Info>)
    requires conn.Fresh() && Launchable(name, host, body, conn.buf.Length, room)
    requires conn.stream == LaunchHead(name, host, body) + body
    modifies conn, conn.sock, conn.buf
    ensures request == None ==> conn.sock.broken
    ensures request.Some? ==>
              && request.value.body.Some?
              && request.value == LaunchInfo(name, host, body, request.value.body.value, local, legacy)
              && IsRead(request.value.body, body, |body|, conn.sock.broken)
    ensures HeadComesFirst(old(conn.sock.script), LaunchHead(name, host, body), body, conn.buf.Length) ==>
              IsPart(old(conn.sock.script), LaunchHead(name, host, body), body, request)
  {
    ghost var head, call := LaunchHead(name, host, body), LaunchCall(name, host, Decimal(|body|), |body|);
    LaunchIsPosted(name, host, body, conn.buf.Length, room);
    request := ReceivePosted(conn, room, local, legacy, LaunchRequest(name, host, Decimal(|body|)), head, body, call);
  }

  lemma BrokenPart(head: nat, body: nat, k: nat)
    requires k <= body
    ensures PostedPart([head, k, 0], head + body, head, body) == Min(BODY_SIZE, k)
  {
    var want := Min(BODY_SIZE, body);
    assert [head, k, 0][1..] == [k, 0] && [k, 0][1..] == [0];
    assert Delivered([0], want - Min(k, want), body - Min(k, want)) == 0;
    assert Delivered([k, 0], want, body) == Min(k, want);
  }

  /** The DIAL server takes such a request for a start with what was read. */
  lemma LaunchStarts(apps: seq<App>, name: Text, host: Text, body: Text, got: Text, local: bool, legacy: bool,
                     answers: Answers)
    requires IsAppName(name) && name != RUN_NAME
    ensures var info := LaunchInfo(name, host, body, got, local, legacy);
            && Respond(apps, DialServer.Routed(info), answers) == Start(apps, name, Some(got), answers)
            && Locks(apps, DialServer.Routed(info)) == 1
  {
    LaunchHeadersAreFound(host, Decimal(|body|));
    AppUriRoutesExactly(name);
  }

  lemma BeginningPasses(body: Text, got: Text)
    requires |body| <= MAX_PAYLOAD && !IsBadPayload(body) && got <= body
    ensures |got| <= MAX_PAYLOAD && !IsBadPayload(got) && Take(got, BODY_SIZE) == got
  {
    assert forall c <- got :: c in body;
  }

  lemma PassingBodyStarts(apps: seq<App>, name: Text, got: Text, answers: Answers)
    requires Registered(apps, name) && answers.start == Running
    requires |got| <= MAX_PAYLOAD && !IsBadPayload(got) && Take(got, BODY_SIZE) == got
    ensures var app := apps[IndexOf(apps, name)];
            (Start(apps, name, Some(got), answers)
             == Plain(Updated(apps, app.(state := Running, payload := Some(got))), 201,
                      [StartCall(name, got, Relaunch(app, got))]))
  {
  }

  /** A body that passes the checks, or its beginning, becomes the payload of a running application. */
  lemma StartSucceeds(apps: seq<App>, name: Text, body: Text, got: Text, answers: Answers)
    requires Registered(apps, name) && got <= body
    requires |body| <= MAX_PAYLOAD && !IsBadPayload(body) && answers.start == Running
    ensures var e := Start(apps, name, Some(got), answers);
            && e.code == 201 && e.calls == [StartCall(name, got, Relaunch(apps[IndexOf(apps, name)], got))]
            && PayloadOf(e.apps, name) == Some(got)
  {
    BeginningPasses(body, got);
    PassingBodyStarts(apps, name, got, answers);
    UpdatedPayload(apps, apps[IndexOf(apps, name)].(state := Running, payload := Some(got)), name);
  }

  /** One that is too long is refused. */
  lemma TooLongIsRefused(apps: seq<App>, name: Text, body: Text, answers: Answers)
    requires Registered(apps, name) && |body| > MAX_PAYLOAD
    ensures Start(apps, name, Some(Take(body, BODY_SIZE)), answers) == Plain(apps, 413, [])
  {
    assert Take(Take(body, BODY_SIZE), BODY_SIZE) == Take(body, BODY_SIZE);
  }

  lemma StartGives(apps: seq<App>, name: Text, body: Text, got: Text, answers: Answers)
    requires Registered(apps, name) && got <= body
    ensures var e := Start(apps, name, Some(got), answers);
            |body| <= MAX_PAYLOAD && !IsBadPayload(body) && answers.start == Running ==>
              && e.code == 201 && e.calls == [StartCall(name, got, Relaunch(apps[IndexOf(apps, name)], got))]
              && PayloadOf(e.apps, name) == Some(got)
    ensures got == Take(body, BODY_SIZE) && |body| > MAX_PAYLOAD ==>
              Start(apps, name, Some(got), answers) == Plain(apps, 413, [])
  {
    if |body| > MAX_PAYLOAD {
      TooLongIsRefused(apps, name, body, answers);
    } else if !IsBadPayload(body) && answers.start == Running {
      StartSucceeds(apps, name, body, got, answers);
    }
  }

  /** The application runs with `got` as its payload, after one start callback with it. */
  ghost predicate Launched(before: seq<App>, after: seq<App>, code: int, callsBefore: seq<DialApps.Call>,
                           calls: seq<DialApps.Call>, name: Text, got: Text)
  {
    && code == 201 && Registered(before, name) && PayloadOf(after, name) == Some(got)
    && calls == callsBefore + [StartCall(name, got, Relaunch(before[IndexOf(before, name)], got))]
  }

  lemma LaunchUriIsNulFree(name: Text)
    requires IsAddressable(name)
    ensures NulFree(APPS_URI + name)
  {
  }

  /** A launch that arrived is taken for a start. */
  method ReplyStart(server: DialServer.Server, info: DialServer.Info, answers: Answers, ghost name: Text,
                    ghost got: Text)
    returns (code: int)
    requires server.Valid() && !server.locked && NulFree(info.uri)
    requires Respond(server.list, DialServer.Routed(info), answers) == Start(server.list, name, Some(got), answers)
    modifies server, server.spine
    ensures server.Valid() && !server.locked
    ensures var e := Start(old(server.list), name, Some(got), answers);
            server.list == e.apps && code == e.code && server.calls == old(server.calls) + e.calls
  {
    var shown;
    code, shown := Reply(server, Some(info), answers);
  }

  /** What the DIAL server makes of a launch that arrived, or of none. */
  method ReplyLaunch(server: DialServer.Server, request: Option<DialServer.Info>, local: bool, legacy: bool,
                     answers: Answers, ghost broken: bool, ghost name: Text, ghost host: Text, ghost body: Text)
    returns (code: int)
    requires server.Valid() && !server.locked
    requires IsAddressable(name) && name != RUN_NAME && Registered(server.list, name)
    requires request.Some? ==>
               && request.value.body.Some? && IsRead(request.value.body, body, |body|, broken)
               && request.value == LaunchInfo(name, host, body, request.value.body.value, local, legacy)
    modifies server, server.spine
    ensures server.Valid() && !server.locked
    ensures request == None ==> server.list == old(server.list) && server.Now() == old(server.Now())
    ensures request.Some? && |body| <= MAX_PAYLOAD && !IsBadPayload(body) && answers.start == Running ==>
              Launched(old(server.list), server.list, code, old(server.calls), server.calls, name,
                       request.value.body.value)
    ensures request.Some? && !broken && |body| > MAX_PAYLOAD ==> code == 413 && server.list == old(server.list)
  {
    code := 0;
    if request.Some? {
      ghost var got := request.value.body.value;
      LaunchStarts(server.list, name, host, body, got, local, legacy, answers);
      StartGives(server.list, name, body, got, answers);
      LaunchUriIsNulFree(name);
      code := ReplyStart(server, request.value, answers, name, got);
    }
  }

  /** From the bytes on the wire to the start callback. An application that is registered is started
      with what was read of the body: all of it, when the connection does not break; when it does,
      a beginning of it, which is still answered with 201. */
  method Launch(conn: Conn, server: DialServer.Server, room: nat, local: bool, legacy: bool, answers: Answers,
                ghost name: Text, ghost host: Text, ghost body: Text)
    returns (request: Option<DialServer.Info>, code: int)
    requires conn.Fresh() && Launchable(name, host, body, conn.buf.Length, room)
    requires conn.stream == LaunchHead(name, host, body) + body
    requires server.Valid() && !server.locked && name != RUN_NAME && Registered(server.list, name)
    modifies conn, conn.sock, conn.buf, server, server.spine
    ensures server.Valid() && !server.locked
    ensures request == None ==>
              conn.sock.broken && server.list == old(server.list) && server.Now() == old(server.Now())
    ensures request.Some? ==> request.value.body.Some? && IsRead(request.value.body, body, |body|, conn.sock.broken)
    ensures request.Some? && |body| <= MAX_PAYLOAD && !IsBadPayload(body) && answers.start == Running ==>
              Launched(old(server.list), server.list, code, old(server.calls), server.calls, name,
                       request.value.body.value)
    ensures !conn.sock.broken && |body| > MAX_PAYLOAD ==> code == 413 && server.list == old(server.list)
    ensures HeadComesFirst(old(conn.sock.script), LaunchHead(name, host, body), body, conn.buf.Length) ==>
              IsPart(old(conn.sock.script), LaunchHead(name, host, body), body, request)
  {
    request := ReceiveLaunch(conn, room, local, legacy, name, host, body);
    code := ReplyLaunch(server, request, local, legacy, answers, conn.sock.broken, name, host, body);
  }

  lemma BrokenBody(head: Text, body: Text, k: nat, request: Option<DialServer.Info>)
    requires k <= |body| && k <= BODY_SIZE && IsPart([|head|, k, 0], head, body, request)
    requires request.value.body.value <= body
    ensures request.value.body.value == body[..k]
  {
    BrokenPart(|head|, |body|, k);
  }

  /** The network delivers the head, then `k` bytes, and breaks. */
  method LaunchBroken(conn: Conn, server: DialServer.Server, room: nat, answers: Answers, ghost name: Text,
                      ghost host: Text, ghost body: Text, ghost k: nat)
    returns (code: int)
    requires conn.Fresh() && Launchable(name, host, body, conn.buf.Length, room)
    requires conn.stream == LaunchHead(name, host, body) + body
    requires conn.sock.script == [|LaunchHead(name, host, body)|, k, 0]
    requires server.Valid() && !server.locked && name != RUN_NAME && Registered(server.list, name)
    requires k < |body| <= MAX_PAYLOAD && !IsBadPayload(body) && answers.start == Running
    modifies conn, conn.sock, conn.buf, server, server.spine
    ensures server.Valid() && code == 201 && PayloadOf(server.list, name) == Some(body[..k])
  {
    ghost var head := LaunchHead(name, host, body);
    var request;
    request, code := Launch(conn, server, room, false, false, answers, name, host, body);
    BrokenBody(head, body, k, request);
  }

  /** Every beginning of a body can become the payload, and the launch is answered with 201 all the
      same. */
  method TruncatedLaunch(name: Text, host: Text, body: Text, k: nat, capacity: nat, room: nat, answers: Answers)
    returns (server: DialServer.Server, code: int)
    requires Launchable(name, host, body, capacity, room) && name != RUN_NAME
    requires k < |body| <= MAX_PAYLOAD && !IsBadPayload(body) && answers.start == Running
    ensures server.Valid() && code == 201 && PayloadOf(server.list, name) == Some(body[..k])
  {
    var head := LaunchHead(name, host, body);
    var sock := new Socket(head + body, [|head|, k, 0]);
    var conn := new Conn(sock, capacity);
    server := new DialServer.Server(map[]);
    var registered := server.Register(name, None, []);
    OneApp(server.list, name);
    code := LaunchBroken(conn, server, room, answers, name, host, body, k);
  }

  lemma OneApp(apps: seq<App>, name: Text)
    requires |apps| == 1 && apps[0].name == name
    ensures Registered(apps, name)
  {
  }
}
