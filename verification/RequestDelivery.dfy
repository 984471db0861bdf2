/** From the client's request to the application's: whatever the packets, the callback sees the
    request that was printed. */
module RequestDelivery {
  import opened Bytes
  import opened Wrappers
  import opened RequestHead
  import opened Tokenizer
  import opened HttpHead
  import opened HeadRoundTrip
  import opened UriPath
  import opened HttpServer
  import opened Connection

  /** A valid request whose head fits the buffer and has no forbidden control byte. */
  ghost predicate Sendable(r: Request, capacity: nat, eol: Text := CRLF) {
    && IsLineBreak(eol) && ValidRequest(r) && |PrintHead(r, eol)| <= capacity && !HasForbidden(PrintHead(r, eol))
    && (r.version == HTTP10 || r.version == HTTP11)
  }

  /** A head of any request line and valid headers that fits the buffer and has no forbidden byte. */
  ghost predicate Printable(line: Text, hs: seq<Header>, capacity: nat, eol: Text) {
    && IsLineBreak(eol) && Without(line, CRLF) && ValidHeaders(hs)
    && |PrintLines(line, hs, eol)| <= capacity && !HasForbidden(PrintLines(line, hs, eol))
  }

  lemma PrintedLinesAreFramed(line: Text, hs: seq<Header>, body: Text, capacity: nat, eol: Text)
    requires Printable(line, hs, capacity, eol)
    ensures FramedLen(PrintLines(line, hs, eol) + body, capacity) == |PrintLines(line, hs, eol)|
    ensures CleanHead(PrintLines(line, hs, eol) + body, capacity)
  {
    var head := PrintLines(line, hs, eol);
    var stream := head + body;
    var n := Min(capacity, |stream|) - |head|;
    assert Window(stream, capacity) == head + body[..n];
    PrintedLinesAreFound(line, hs, body[..n], eol);
    assert stream[..|head|] == head;
  }

  lemma CleanTextIsWhole(head: Text)
    requires head != [] && !HasForbidden(head)
    ensures CString(head[..|head| - 1]) == head[..|head| - 1]
  {
    var text := head[..|head| - 1];
    forall c | c in text
      ensures c != NUL
    {
      var i :| 0 <= i < |text| && text[i] == c;
      assert head[i] == c && !Forbidden(head[i]);
    }
    NulFreeIsWhole(text);
  }

  /** A head without forbidden bytes is answered as its text is parsed. */
  lemma HeadIsAnswered(head: Text, body: Text, capacity: nat, room: nat, parsed: Request)
    requires FramedLen(head + body, capacity) == |head| > 0 && !HasForbidden(head)
    requires ParseRequest(head[..|head| - 1], room) == parsed
    ensures Serve(head + body, capacity, room) == Answer(parsed)
  {
    assert (head + body)[..|head|] == head;
    CleanTextIsWhole(head);
  }

  lemma SendableIsPrintable(r: Request, capacity: nat, eol: Text)
    requires Sendable(r, capacity, eol)
    ensures Printable(RequestLine(r), r.headers, capacity, eol)
    ensures PrintHead(r, eol) == PrintLines(RequestLine(r), r.headers, eol)
  {
    RequestLineWithoutBreaks(r);
  }

  lemma PrintedHeadIsFramed(r: Request, body: Text, capacity: nat, eol: Text := CRLF)
    requires Sendable(r, capacity, eol)
    ensures FramedLen(PrintHead(r, eol) + body, capacity) == |PrintHead(r, eol)|
    ensures CleanHead(PrintHead(r, eol) + body, capacity)
  {
    SendableIsPrintable(r, capacity, eol);
    PrintedLinesAreFramed(RequestLine(r), r.headers, body, capacity, eol);
  }

  lemma RequestIsAnswered(r: Request, body: Text, capacity: nat, room: nat, eol: Text)
    requires Sendable(r, capacity, eol)
    ensures Serve(PrintHead(r, eol) + body, capacity, room)
         == Answer(r.(headers := r.headers[..Min(room, |r.headers|)]))
  {
    hide ParseRequest;
    PrintedHeadIsFramed(r, body, capacity, eol);
    RequestRoundTrip(r, room, eol);
    HeadIsAnswered(PrintHead(r, eol), body, capacity, room, r.(headers := r.headers[..Min(room, |r.headers|)]));
  }

  /** The request that reaches the callback, for every way the socket splits the stream, and whether its
      lines end with CRLF or with a line feed. */
  lemma PrintedRequestIsServed(r: Request, body: Text, capacity: nat, room: nat, eol: Text := CRLF)
    requires Sendable(r, capacity, eol)
    ensures CleanHead(PrintHead(r, eol) + body, capacity)
    ensures Serve(PrintHead(r, eol) + body, capacity, room)
         == Call(r.verb, Target(r.uri), Query(r.uri), r.headers[..Min(room, |r.headers|)],
                 ContentLength(r.headers[..Min(room, |r.headers|)]))
  {
    PrintedHeadIsFramed(r, body, capacity, eol);
    RequestIsAnswered(r, body, capacity, room, eol);
  }

  // ---------- Which requests are served ----------

  /** The first word is not white space to the server: a printable head has no other white space than
      spaces and line breaks. */
  lemma FirstWordIsNotWhite(verb: Text, uri: Text, protocol: Text, hs: seq<Header>, capacity: nat, eol: Text)
    requires Printable(RequestWords(verb, uri, protocol), hs, capacity, eol)
    requires verb != [] && Without(verb, SPACE + CRLF)
    ensures verb[0] !in WHITE
  {
    var head := PrintLines(RequestWords(verb, uri, protocol), hs, eol);
    assert head[0] == verb[0] && !Forbidden(head[0]) && verb[0] in verb;
  }

  lemma KnownMethods(verb: Text)
    ensures IsValidMethod(verb) <==> verb == "GET" || verb == "POST" || verb == "DELETE" || verb == "OPTIONS"
  {
  }

  lemma KnownProtocols(protocol: Text)
    ensures HTTP <= protocol <==> "HTTP/" <= protocol
    ensures HTTP <= protocol ==> (protocol[|HTTP|..] == HTTP10 <==> protocol == "HTTP/1.0")
    ensures HTTP <= protocol ==> (protocol[|HTTP|..] == HTTP11 <==> protocol == "HTTP/1.1")
  {
    if HTTP <= protocol {
      assert protocol == HTTP + protocol[|HTTP|..];
    }
  }

  /** `served` is what becomes of a request with these words: the callback runs for four methods and two
      versions of the protocol; an unknown method or protocol is a bad request, and another version of
      the protocol has a status of its own. */
  ghost predicate IsDecided(served: Served, verb: Text, uri: Text, protocol: Text, hs: seq<Header>) {
    var known := verb == "GET" || verb == "POST" || verb == "DELETE" || verb == "OPTIONS";
    && (served.Call? <==> known && (protocol == "HTTP/1.0" || protocol == "HTTP/1.1"))
    && (served == Refused(400) <==> !known || !("HTTP/" <= protocol))
    && (served == Refused(505) <==>
          known && "HTTP/" <= protocol && protocol != "HTTP/1.0" && protocol != "HTTP/1.1")
    && (served.Call? ==> served == Call(verb, Target(uri), Query(uri), hs, ContentLength(hs)))
  }

  lemma WordsDecide(verb: Text, uri: Text, protocol: Text, hs: seq<Header>, room: nat)
    ensures IsDecided(Answer(Parsed(IsValidMethod(verb), verb, uri, protocol, hs, room)), verb, uri, protocol,
                      hs[..Min(room, |hs|)])
  {
    KnownMethods(verb);
    KnownProtocols(protocol);
  }

  predicate AreWords(verb: Text, uri: Text, protocol: Text) {
    && verb != [] && Without(verb, SPACE + CRLF) && uri != [] && Without(uri, SPACE + CRLF)
    && Without(protocol, CRLF) && (protocol != [] ==> protocol[0] != ' ')
  }

  lemma LinesAreAnswered(verb: Text, uri: Text, protocol: Text, hs: seq<Header>, body: Text, capacity: nat,
                         room: nat, eol: Text)
    requires Printable(RequestWords(verb, uri, protocol), hs, capacity, eol) && AreWords(verb, uri, protocol)
    ensures Serve(PrintLines(RequestWords(verb, uri, protocol), hs, eol) + body, capacity, room)
         == Answer(Parsed(IsValidMethod(verb), verb, uri, protocol, hs, room))
  {
    hide ParseRequest;
    FirstWordIsNotWhite(verb, uri, protocol, hs, capacity, eol);
    PrintedLinesAreFramed(RequestWords(verb, uri, protocol), hs, body, capacity, eol);
    LinesParse(verb, uri, protocol, hs, room, eol, IsValidMethod(verb));
    HeadIsAnswered(PrintLines(RequestWords(verb, uri, protocol), hs, eol), body, capacity, room,
                   Parsed(IsValidMethod(verb), verb, uri, protocol, hs, room));
  }

  /** The three words of a request line decide alone how a request with valid headers is answered. */
  lemma RequestLineDecides(verb: Text, uri: Text, protocol: Text, hs: seq<Header>, body: Text, capacity: nat,
                           room: nat, eol: Text)
    requires Printable(RequestWords(verb, uri, protocol), hs, capacity, eol) && AreWords(verb, uri, protocol)
    ensures IsDecided(Serve(PrintLines(RequestWords(verb, uri, protocol), hs, eol) + body, capacity, room),
                      verb, uri, protocol, hs[..Min(room, |hs|)])
  {
    LinesAreAnswered(verb, uri, protocol, hs, body, capacity, room, eol);
    WordsDecide(verb, uri, protocol, hs, room);
  }

  /** Without an empty line in the part of the stream that the buffer can hold, the request is too large if
      it fills the buffer and has no control character; otherwise nothing is answered. */
  lemma NoHeadIsServed(stream: Text, capacity: nat, room: nat)
    requires forall i: nat :: !EmptyLineBehind(stream[..Min(capacity, |stream|)], i)
    ensures Serve(stream, capacity, room)
         == if |stream| >= capacity && forall i: nat :: !ControlAt(stream[..capacity], i) then Refused(413) else Closed
  {
    RequestLenExactly(Window(stream, capacity));
  }

  // ---------- Target and query ----------

  /** The query is what stands behind the first question mark, as it was sent. */
  lemma QueryIsSplitOff(path: Text, query: Text)
    requires '?' !in path
    ensures Query(path + "?" + query) == Some(query) && Target(path + "?" + query) == Target(path)
    ensures Query(path) == None
  {
    var uri := path + "?" + query;
    assert forall i :: 0 <= i < |path| ==> uri[i] == path[i] && path[i] in path;
    CSpanIs(uri, |path|, QUESTION);
    CSpanIs(path, |path|, QUESTION);
    assert uri[..|path|] == path == path[..|path|] && uri[|path| + 1..] == query;
  }

  // ---------- Headers ----------

  /** The same byte, or the same letter in the other case. */
  predicate SameLetter(c: byte, d: byte) {
    || c == d
    || (65 <= c as int <= 90 && d as int == c as int + 32)
    || (65 <= d as int <= 90 && c as int == d as int + 32)
  }

  ghost predicate SameName(t: Text, w: Text) {
    |t| == |w| && forall i :: 0 <= i < |t| ==> SameLetter(t[i], w[i])
  }

  lemma SameNameExactly(t: Text, w: Text)
    ensures Lower(t) == Lower(w) <==> SameName(t, w)
  {
    assert forall c: byte, d: byte :: ToLower(c) == ToLower(d) <==> SameLetter(c, d);
    if Lower(t) == Lower(w) {
      assert forall i :: 0 <= i < |t| ==> Lower(t)[i] == ToLower(t[i]) && Lower(w)[i] == ToLower(w[i]);
    }
  }

  ghost predicate IsFirstOfName(hs: seq<Header>, name: Text, i: nat) {
    i < |hs| && SameName(hs[i].name, name) && forall j :: 0 <= j < i ==> !SameName(hs[j].name, name)
  }

  /** The body length is announced by the first header of that name, in letters of any case, and not at
      all without one. */
  lemma {:induction false} FirstHeaderCounts(hs: seq<Header>, name: Text)
    ensures FindHeader(hs, name) == None <==> forall i :: 0 <= i < |hs| ==> !SameName(hs[i].name, name)
    ensures forall i: nat :: IsFirstOfName(hs, name, i) ==> FindHeader(hs, name) == Some(hs[i].value)
  {
    if hs != [] {
      SameNameExactly(hs[0].name, name);
      FirstHeaderCounts(hs[1..], name);
      assert forall i :: 0 < i < |hs| ==> hs[i] == hs[1..][i - 1];
      assert forall i: nat :: i > 0 && IsFirstOfName(hs, name, i) ==> IsFirstOfName(hs[1..], name, i - 1);
    }
  }

  /** The name that counts for the body length, in letters of any case; -1 stands for no such header. */
  lemma ContentLengthExactly(hs: seq<Header>)
    ensures (forall i :: 0 <= i < |hs| ==> !SameName(hs[i].name, "Content-Length")) ==> ContentLength(hs) == -1
    ensures forall i: nat :: IsFirstOfName(hs, "Content-Length", i) ==> ContentLength(hs) == StrToLL(hs[i].value)
  {
    FirstHeaderCounts(hs, CONTENT_LENGTH);
    assert CONTENT_LENGTH == "Content-Length";
  }

  // ---------- The length of the body ----------

  lemma {:induction false} DigitsEnd(digits: Text, rest: Text, acc: int)
    requires (forall d <- digits :: IsDigit(d)) && (rest == [] || !IsDigit(rest[0]))
    ensures DigitsValue(digits + rest, acc) == DigitsValue(digits, acc)
  {
    if digits == [] {
      assert digits + rest == rest;
    } else {
      assert (digits + rest)[1..] == digits[1..] + rest;
      DigitsEnd(digits[1..], rest, 10 * acc + Code(digits[0]) - Code('0'));
    }
  }

  predicate IsBlank(t: Text) {
    forall c <- t :: c as int == 32 || 9 <= c as int <= 13
  }

  /** A number, or the nearest one that fits 64 bits. */
  function NearestIn64Bits(v: int): int {
    if v > 9223372036854775807 then 9223372036854775807
    else if v < -9223372036854775808 then -9223372036854775808 else v
  }

  lemma SignedDigitsAre(sign: Text, digits: Text, rest: Text)
    requires (sign == "" || sign == "+" || sign == "-") && (rest == [] || !IsDigit(rest[0]))
    requires digits != [] && forall d <- digits :: IsDigit(d)
    ensures SignedValue(sign + digits + rest) == if sign == "-" then -DigitsValue(digits, 0) else DigitsValue(digits, 0)
    ensures !IsBlank((sign + digits + rest)[..1])
  {
    var u := sign + digits + rest;
    DigitsEnd(digits, rest, 0);
    assert digits[0] in digits && u[0] in u[..1];
    if sign == "" {
      assert u == digits + rest && u[0] == digits[0];
    } else {
      assert u[0] == sign[0] && u[1..] == digits + rest;
    }
  }

  lemma BlanksAreSkipped(blank: Text, u: Text)
    requires IsBlank(blank) && u != [] && !IsBlank(u[..1])
    ensures (blank + u)[Span(blank + u, WHITE)..] == u
  {
    var t := blank + u;
    assert forall i :: 0 <= i < |blank| ==> t[i] == blank[i] && blank[i] in blank;
    assert t[|blank|] == u[0];
    SpanIs(t, |blank|, WHITE);
  }

  /** White space, a sign, digits, and what follows them: the number, of any size. */
  lemma NumberIsRead(blank: Text, sign: Text, n: nat, rest: Text)
    requires IsBlank(blank) && (sign == "" || sign == "+" || sign == "-")
    requires rest == [] || !(48 <= rest[0] as int <= 57)
    ensures StrToLL(blank + (sign + Decimal(n) + rest)) == NearestIn64Bits(if sign == "-" then -(n as int) else n)
  {
    DecimalDigits(n);
    SignedDigitsAre(sign, Decimal(n), rest);
    BlanksAreSkipped(blank, sign + Decimal(n) + rest);
  }

  /** The announced length of the body, when the header that announces it is kept. */
  lemma AnnouncedLengthArrives(hs: seq<Header>, n: nat)
    requires n <= LLONG_MAX && FindHeader(hs, CONTENT_LENGTH) == Some(Decimal(n))
    ensures ContentLength(hs) == n
  {
    DecimalRoundTrip(n);
  }

  lemma {:induction false} EncodedPathHasNoQuestion(path: Text, keep: byte -> bool, upper: bool)
    requires !keep('?')
    ensures '?' !in PercentEncode(path, keep, upper, false)
  {
    if path != [] {
      EncodedPathHasNoQuestion(path[1..], keep, upper);
    }
  }

  /** A path written with percent escapes arrives cleaned; a path that needs no cleaning arrives
      as it is. */
  lemma EncodedPathArrives(path: Text, keep: byte -> bool, upper: bool)
    requires NulFree(path) && !keep('%') && !keep('?')
    ensures Target(PercentEncode(path, keep, upper, false)) == CleanPath(path)
    ensures !HasDotDot(path) && !HasDoubleSeparator(path) ==> Target(PercentEncode(path, keep, upper, false)) == path
  {
    var e := PercentEncode(path, keep, upper, false);
    EncodedPathHasNoQuestion(path, keep, upper);
    CSpanIs(e, |e|, QUESTION);
    assert e[..|e|] == e;
    DecodeInvertsEncode(path, keep, upper, false);
    NulFreeIsWhole(path);
    if !HasDotDot(path) {
      CleaningCleanPath(path);
    }
  }

  lemma {:induction false} DigitsAreNatural(t: Text, acc: nat)
    ensures DigitsValue(t, acc) >= 0
  {
    if t != [] && IsDigit(t[0]) {
      DigitsAreNatural(t[1..], 10 * acc + Code(t[0]) - Code('0'));
    }
  }

  /** White space, a minus sign, and digits that stand for more than 1. */
  predicate IsBelowMinusOne(v: Text) {
    var t := v[Span(v, WHITE)..];
    t != [] && t[0] == '-' && DigitsValue(t[1..], 0) > 1
  }

  /** The length is whatever number the client announces. The assertion of the first body read
      fails exactly when the first header with the name announces a number below -1. */
  lemma ReadAssertionFailsExactly(hs: seq<Header>)
    ensures ContentLength(hs) < -1 <==>
              FindHeader(hs, CONTENT_LENGTH).Some? && IsBelowMinusOne(FindHeader(hs, CONTENT_LENGTH).value)
    ensures !ReadAsserts(ContentLength(hs), 0) <==> ContentLength(hs) < -1
  {
    match FindHeader(hs, CONTENT_LENGTH)
    case None =>
    case Some(v) =>
      var t := v[Span(v, WHITE)..];
      DigitsAreNatural(t, 0);
      if t != [] {
        DigitsAreNatural(t[1..], 0);
      }
  }

  function Negative(n: nat): Text {
    ['-'] + Decimal(n)
  }

  lemma NegativeIsRead(n: nat)
    requires n <= LLONG_MAX
    ensures StrToLL(Negative(n)) == -(n as int)
    ensures n > 1 ==> IsBelowMinusOne(Negative(n))
  {
    var t := Negative(n);
    SpanIs(t, 0, WHITE);
    assert t[0..] == t && t[1..] == Decimal(n);
    DecimalDigits(n);
  }

  /** Such a request is served like any other: its callback sees the negative length, and the
      assertion of the first read of its body fails. */
  lemma NegativeLengthArrives(r: Request, body: Text, capacity: nat, room: nat, n: nat)
    requires Sendable(r, capacity) && 1 < n <= LLONG_MAX
    requires FindHeader(r.headers[..Min(room, |r.headers|)], CONTENT_LENGTH) == Some(Negative(n))
    ensures Serve(PrintHead(r) + body, capacity, room)
         == Call(r.verb, Target(r.uri), Query(r.uri), r.headers[..Min(room, |r.headers|)], -(n as int))
    ensures !ReadAsserts(-(n as int), 0)
  {
    PrintedRequestIsServed(r, body, capacity, room);
    NegativeIsRead(n);
  }

  lemma HeadIsServed(stream: Text, capacity: nat, room: nat, len: nat)
    requires FramedLen(stream, capacity) == len > 0
    ensures len <= |stream| && Serve(stream, capacity, room) == ServeHead(stream[..len], room)
  {
  }

  /** A request that announces the length -n, and its call. */
  ghost predicate IsNegative(r: Request, capacity: nat, room: nat, n: nat) {
    && Sendable(r, capacity) && 1 < n <= INT_MAX
    && FindHeader(r.headers[..Min(room, |r.headers|)], CONTENT_LENGTH) == Some(Negative(n))
  }

  ghost function NegativeCall(r: Request, room: nat, n: nat): Served
    requires r.Request?
  {
    Call(r.verb, Target(r.uri), Query(r.uri), r.headers[..Min(room, |r.headers|)], -(n as int))
  }

  lemma NegativeIsFramed(r: Request, body: Text, capacity: nat, room: nat, n: nat, stream: Text)
    requires IsNegative(r, capacity, room, n) && stream == PrintHead(r) + body
    ensures FramedLen(stream, capacity) == |PrintHead(r)| > 0 && CleanHead(stream, capacity)
    ensures Serve(stream, capacity, room) == NegativeCall(r, room, n)
    ensures ServeHead(stream[..|PrintHead(r)|], room) == NegativeCall(r, room, n)
  {
    NegativeLengthArrives(r, body, capacity, room, n);
    PrintedHeadIsFramed(r, body, capacity);
    HeadIsServed(stream, capacity, room, |PrintHead(r)|);
  }

  method ServeNegative(conn: Conn, room: nat, ghost r: Request, ghost body: Text, ghost n: nat)
    returns (outcome: Outcome)
    requires conn.Fresh() && IsNegative(r, conn.buf.Length, room, n) && conn.stream == PrintHead(r) + body
    modifies conn, conn.sock, conn.buf
    ensures !conn.sock.broken ==> outcome.Callback?
    ensures outcome.Callback? ==>
              && conn.contentLen == -(n as int) && 0 < conn.requestLen == |PrintHead(r)|
              && conn.requestLen <= conn.dataLen <= conn.buf.Length
  {
    NegativeIsFramed(r, body, conn.buf.Length, room, n, conn.stream);
    outcome := ProcessRequest(conn, room);
    if !conn.sock.broken {
      CallbackMeansCall(conn.buf[..], outcome, NegativeCall(r, room, n));
    }
  }

  /** Such a request is served and then dropped from the buffer, when its callback has read no body.
      The index that the source keeps bytes from is in front of the buffer exactly when n is greater
      than the length of the head: it then moves memory that is not the buffer's. */
  method ServeAndDiscard(conn: Conn, room: nat, ghost r: Request, ghost body: Text, ghost n: nat)
    returns (outcome: Outcome, inside: bool)
    requires conn.Fresh() && IsNegative(r, conn.buf.Length, room, n) && conn.stream == PrintHead(r) + body
    requires conn.buf.Length <= INT_MAX
    modifies conn, conn.sock, conn.buf
    ensures !conn.sock.broken ==> outcome.Callback?
    ensures outcome.Callback? ==> (inside <==> n <= |PrintHead(r)|)
  {
    inside := true;
    outcome := ServeNegative(conn, room, r, body, n);
    if outcome.Callback? {
      CutOfInt(-(n as int));
      inside := conn.Discard();
    }
  }
}
