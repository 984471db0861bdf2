/** One request on one connection, from the socket to the application callback: the framing,
    the tokenizer, the headers and the path come together here. */
module HttpServer {
  import opened Bytes
  import opened Wrappers
  import opened RequestHead
  import opened Tokenizer
  import opened HttpHead
  import opened UriPath
  import opened Connection

  // ---------- Numbers ----------

  const LLONG_MAX := 0x7FFF_FFFF_FFFF_FFFF

  function DigitsValue(t: Text, acc: int): int {
    if t == [] || !IsDigit(t[0]) then acc else DigitsValue(t[1..], 10 * acc + Code(t[0]) - Code('0'))
  }

  function Clamp(v: int): int {
    if v > LLONG_MAX then LLONG_MAX else if v < -LLONG_MAX - 1 then -LLONG_MAX - 1 else v
  }

  function SignedValue(t: Text): int {
    if t != [] && t[0] == '-' then -DigitsValue(t[1..], 0)
    else if t != [] && t[0] == '+' then DigitsValue(t[1..], 0)
    else DigitsValue(t, 0)
  }

  /** `strtoll` in base 10. */
  function StrToLL(t: Text): int {
    Clamp(SignedValue(t[Span(t, WHITE)..]))
  }

  method ReadDigits(b: array<byte>, p: nat, ghost t: Text) returns (v: int)
    requires IsString(b[..], p, t)
    ensures v == DigitsValue(t, 0)
  {
    v := 0;
    var q := p;
    ghost var rest := t;
    while IsDigit(b[q])
      invariant p <= q && IsString(b[..], q, rest) && DigitsValue(t, 0) == DigitsValue(rest, v)
      decreases |rest|
    {
      assert rest != [] && b[..][q] == rest[0];
      SuffixIsString(b[..], q, rest, 1);
      v, q, rest := 10 * v + Code(b[q]) - Code('0'), q + 1, rest[1..];
    }
    assert rest != [] ==> b[..][q] == rest[0];
  }

  method ReadLL(b: array<byte>, p: nat, ghost t: Text) returns (v: int)
    requires IsString(b[..], p, t)
    ensures v == StrToLL(t)
  {
    var blanks := StrSpn(b, p, WHITE, t);
    var q := p + blanks;
    ghost var u := t[blanks..];
    SuffixIsString(b[..], p, t, blanks);
    assert u != [] ==> b[..][q] == u[0];
    assert b[..][q] == b[q];
    if b[q] == '-' || b[q] == '+' {
      SuffixIsString(b[..], q, u, 1);
      v := ReadDigits(b, q + 1, u[1..]);
      v := if b[q] == '-' then -v else v;
    } else {
      v := ReadDigits(b, q, u);
    }
    v := Clamp(v);
  }

  function Decimal(n: nat): Text {
    (if n < 10 then [] else Decimal(n / 10)) + [HexDigit(n % 10, false)]
  }

  lemma {:induction false} DigitsAppend(t: Text, c: byte, acc: int)
    requires (forall d <- t :: IsDigit(d)) && IsDigit(c)
    ensures DigitsValue(t + [c], acc) == 10 * DigitsValue(t, acc) + Code(c) - Code('0')
  {
    if t == [] {
      assert DigitsValue([c][1..], 10 * acc + Code(c) - Code('0')) == 10 * acc + Code(c) - Code('0');
    } else {
      assert (t + [c])[1..] == t[1..] + [c];
      DigitsAppend(t[1..], c, 10 * acc + Code(t[0]) - Code('0'));
    }
  }

  lemma {:induction false} DecimalDigits(n: nat)
    ensures |Decimal(n)| > 0 && (forall d <- Decimal(n) :: IsDigit(d)) && DigitsValue(Decimal(n), 0) == n
  {
    if n >= 10 {
      DecimalDigits(n / 10);
    }
    DigitsAppend(if n < 10 then [] else Decimal(n / 10), HexDigit(n % 10, false), 0);
  }

  lemma DecimalRoundTrip(n: nat)
    requires n <= LLONG_MAX
    ensures StrToLL(Decimal(n)) == n
  {
    DecimalDigits(n);
    var t := Decimal(n);
    assert t[0] in t;
    SpanIs(t, 0, WHITE);
    assert t[0..] == t;
  }

  // ---------- Headers ----------

  function Lower(t: Text): Text {
    seq(|t|, i requires 0 <= i < |t| => ToLower(t[i]))
  }

  /** `get_header`: the value of the first header with that name, in any case. */
  function FindHeader(hs: seq<Header>, name: Text): Option<Text> {
    if hs == [] then None
    else if Lower(hs[0].name) == Lower(name) then Some(hs[0].value)
    else FindHeader(hs[1..], name)
  }

  /** `mg_strcasecmp` against a literal. */
  method EqualsIgnoringCase(b: array<byte>, p: nat, w: Text, ghost t: Text) returns (r: bool)
    requires IsString(b[..], p, t) && NulFree(w)
    ensures r <==> Lower(t) == Lower(w)
  {
    var i := 0;
    while i < |w|
      invariant i <= |w| && i <= |t| && forall k :: 0 <= k < i ==> ToLower(t[k]) == ToLower(w[k])
    {
      assert w[i] in w && (i < |t| ==> b[..][p + i] == t[i]);
      if ToLower(b[p + i]) != ToLower(w[i]) {
        assert i < |t| ==> Lower(t)[i] != Lower(w)[i];
        return false;
      }
      i := i + 1;
    }
    assert |w| < |t| ==> b[..][p + |w|] != NUL;
    assert b[..][p + |w|] == b[p + |w|];
    r := b[p + |w|] == NUL;
    assert r ==> forall k :: 0 <= k < |t| ==> Lower(t)[k] == Lower(w)[k];
  }

  const CONTENT_LENGTH: Text :=
    ['C', 'o', 'n', 't', 'e', 'n', 't', '-', 'L', 'e', 'n', 'g', 't', 'h']

  function ContentLength(hs: seq<Header>): int {
    match FindHeader(hs, CONTENT_LENGTH)
    case None => -1
    case Some(v) => StrToLL(v)
  }

  method ReadContentLength(b: array<byte>, slots: seq<Slot>, ghost hs: seq<Header>, ghost lo: nat, ghost hi: nat)
    returns (n: int)
    requires HoldsHeaders(b[..], slots, hs, lo, hi)
    ensures n == ContentLength(hs)
  {
    var i := 0;
    while i < |slots|
      invariant i <= |slots| && FindHeader(hs, CONTENT_LENGTH) == FindHeader(hs[i..], CONTENT_LENGTH)
    {
      assert HoldsHeader(b[..], slots[i], hs[i], lo, hi);
      assert hs[i..][0] == hs[i] && hs[i..][1..] == hs[i + 1..];
      var found := EqualsIgnoringCase(b, slots[i].nameAt, CONTENT_LENGTH, hs[i].name);
      if found {
        n := ReadLL(b, slots[i].valueAt, hs[i].value);
        return;
      }
      i := i + 1;
    }
    n := -1;
  }

  // ---------- The target ----------

  const QUESTION: Text := ['?']

  function RawPath(uri: Text): Text { Word(uri, QUESTION) }

  function Query(uri: Text): Option<Text> {
    if CSpan(uri, QUESTION) == |uri| then None else Some(uri[CSpan(uri, QUESTION) + 1..])
  }

  /** The path the application sees. */
  function Target(uri: Text): Text {
    CleanPath(CString(PercentDecode(RawPath(uri), false)))
  }

  lemma StringOutside(before: Text, after: Text, lo: int, hi: int, p: nat, t: Text)
    requires IsString(before, p, t) && OnlyWithin(before, after, lo, hi) && (p + |t| < lo || hi < p)
    ensures IsString(after, p, t)
  {
  }

  /** The first half of `handle_request`. `queryAt` is 0 when there is no query. */
  method HandleUri(b: array<byte>, p: nat, ghost uri: Text) returns (queryAt: nat)
    requires IsString(b[..], p, uri)
    modifies b
    ensures IsString(b[..], p, Target(uri))
    ensures Query(uri) == None ==> queryAt == 0
    ensures Query(uri).Some? ==> queryAt > p && IsString(b[..], queryAt, Query(uri).value)
    ensures OnlyWithin(old(b[..]), b[..], p, p + |uri|)
  {
    ghost var b0 := b[..];
    queryAt := SplitQuery(b, p, uri);
    ghost var b1 := b[..];
    var len := UrlDecode(b, p, false, RawPath(uri));
    DecodedString(b[..], p, len);
    assert b[..][p..p + len] == b[p..p + len];
    ghost var path := CString(PercentDecode(RawPath(uri), false));
    RemoveDoubleDots(b, p, path);
    assert OnlyWithin(b1, b[..], p, p + |RawPath(uri)|);
    if Query(uri).Some? {
      StringOutside(b1, b[..], p, p + |RawPath(uri)|, queryAt, Query(uri).value);
    }
  }

  method SplitQuery(b: array<byte>, p: nat, ghost uri: Text) returns (queryAt: nat)
    requires IsString(b[..], p, uri)
    modifies b
    ensures IsString(b[..], p, RawPath(uri))
    ensures Query(uri) == None ==> queryAt == 0
    ensures Query(uri).Some? ==> queryAt == p + |RawPath(uri)| + 1 && IsString(b[..], queryAt, Query(uri).value)
    ensures OnlyWithin(old(b[..]), b[..], p, p + |uri|)
  {
    var k := StrCSpn(b, p, QUESTION, uri);
    assert b[..][p + k] == b[p + k];
    if b[p + k] == NUL {
      assert k == |uri| && uri[..k] == uri;
      queryAt := 0;
    } else {
      b[p + k] := NUL;
      queryAt := p + k + 1;
    }
  }

  // ---------- One request ----------

  const HTTP10: Text := ['1', '.', '0']
  const HTTP11: Text := ['1', '.', '1']

  /** What the server does with a connection: an error status, nothing, or the callback with the
      request as the application sees it. */
  datatype Served =
    | Refused(status: int)
    | Closed
    | Call(verb: Text, target: Text, query: Option<Text>, headers: seq<Header>, contentLen: int)

  ghost function Answer(r: Request): Served {
    if r.Malformed? then Refused(400)
    else if r.version != HTTP10 && r.version != HTTP11 then Refused(505)
    else Call(r.verb, Target(r.uri), Query(r.uri), r.headers, ContentLength(r.headers))
  }

  /** The last byte of the head becomes the terminator of the text that is parsed. */
  ghost function ServeHead(head: Text, room: nat): Served
    requires |head| > 0
  {
    Answer(ParseRequest(CString(head[..|head| - 1]), room))
  }

  ghost function Serve(stream: Text, capacity: nat, room: nat): Served {
    var len := FramedLen(stream, capacity);
    if len == 0 && capacity <= |stream| then Refused(413)
    else if len <= 0 then Closed
    else ServeHead(stream[..len], room)
  }

  /** The same, with the strings of the call left in the buffer. */
  datatype Outcome =
    | Error(status: int)
    | NoAnswer
    | Callback(info: Info, queryAt: nat)

  ghost predicate Delivers(b: Text, outcome: Outcome, served: Served) {
    match served
    case Refused(status) => outcome == Error(status)
    case Closed => outcome == NoAnswer
    case Call(verb, target, query, headers, _) =>
      && outcome.Callback?
      && IsString(b, outcome.info.verbAt, verb) && IsString(b, outcome.info.uriAt, target)
      && outcome.info.uriAt > 0 && b[outcome.info.uriAt - 1] == NUL
      && (query == None <==> outcome.queryAt == 0)
      && (query.Some? ==> IsString(b, outcome.queryAt, query.value))
      && HoldsHeaders(b, outcome.info.slots, headers, 0, |b|)
  }

  lemma HeadersOutside(before: Text, after: Text, lo: int, hi: int, slots: seq<Slot>, hs: seq<Header>, from: nat,
                       to: nat)
    requires HoldsHeaders(before, slots, hs, from, to) && OnlyWithin(before, after, lo, hi)
    requires hi < from && to <= |before|
    ensures HoldsHeaders(after, slots, hs, 0, |before|)
  {
    forall i | 0 <= i < |hs|
      ensures HoldsHeader(after, slots[i], hs[i], 0, |before|)
    {
      assert HoldsHeader(before, slots[i], hs[i], from, to);
    }
  }

  lemma CallStands(before: Text, after: Text, info: Info, queryAt: nat, r: Request, hi: nat)
    requires HoldsRequest(before, info, r, hi) && hi < |before|
    requires OnlyWithin(before, after, info.uriAt, info.uriAt + |r.uri|) && IsString(after, info.uriAt, Target(r.uri))
    requires Query(r.uri) == None ==> queryAt == 0
    requires Query(r.uri).Some? ==> queryAt > info.uriAt && IsString(after, queryAt, Query(r.uri).value)
    ensures Delivers(after, Callback(info, queryAt),
                     Call(r.verb, Target(r.uri), Query(r.uri), r.headers, ContentLength(r.headers)))
  {
    StringOutside(before, after, info.uriAt, info.uriAt + |r.uri|, info.verbAt, r.verb);
    HeadersOutside(before, after, info.uriAt, info.uriAt + |r.uri|, info.slots, r.headers, info.versionAt, hi);
  }

  /** The URI of an accepted request is rewritten; the other strings stay. */
  method DeliverCall(b: array<byte>, info: Info, ghost r: Request, ghost hi: nat) returns (outcome: Outcome)
    requires HoldsRequest(b[..], info, r, hi) && hi < b.Length
    modifies b
    ensures Delivers(b[..], outcome, Call(r.verb, Target(r.uri), Query(r.uri), r.headers, ContentLength(r.headers)))
    ensures OnlyWithin(old(b[..]), b[..], 0, hi)
  {
    ghost var before := b[..];
    var queryAt := HandleUri(b, info.uriAt, r.uri);
    CallStands(before, b[..], info, queryAt, r, hi);
    outcome := Callback(info, queryAt);
  }

  method IsKnownVersion(b: array<byte>, p: nat, ghost version: Text) returns (known: bool)
    requires IsString(b[..], p, version)
    ensures known <==> version == HTTP10 || version == HTTP11
  {
    var old10 := Equals(b, p, HTTP10, version);
    var new11 := Equals(b, p, HTTP11, version);
    known := old10 || new11;
  }

  method TerminateHead(b: array<byte>, len: nat, ghost head: Text)
    requires 0 < len <= b.Length && b[..len] == head
    modifies b
    ensures IsString(b[..], 0, CString(head[..len - 1])) && |CString(head[..len - 1])| < len
    ensures OnlyWithin(old(b[..]), b[..], 0, len - 1)
  {
    b[len - 1] := NUL;
    DecodedString(b[..], 0, len - 1);
    assert b[..][0..len - 1] == head[..len - 1];
  }

  method ServeText(b: array<byte>, room: nat, ghost text: Text) returns (outcome: Outcome, contentLen: int)
    requires IsString(b[..], 0, text)
    modifies b
    ensures var served := Answer(ParseRequest(text, room));
            Delivers(b[..], outcome, served) && contentLen == if served.Call? then served.contentLen else -1
    ensures OnlyWithin(old(b[..]), b[..], 0, |text|)
  {
    var ok, info := ParseRequestInPlace(b, room, text);
    if ok {
      outcome, contentLen := ServeParsed(b, info, ParseRequest(text, room), |text|);
    } else {
      outcome, contentLen := Error(400), -1;
    }
  }

  method ServeParsed(b: array<byte>, info: Info, ghost r: Request, ghost hi: nat)
    returns (outcome: Outcome, contentLen: int)
    requires HoldsRequest(b[..], info, r, hi) && hi < b.Length
    modifies b
    ensures Delivers(b[..], outcome, Answer(r))
    ensures contentLen == if Answer(r).Call? then Answer(r).contentLen else -1
    ensures OnlyWithin(old(b[..]), b[..], 0, hi)
  {
    var known := IsKnownVersion(b, info.versionAt, r.version);
    if known {
      contentLen := ReadContentLength(b, info.slots, r.headers, info.versionAt, hi);
      outcome := DeliverCall(b, info, r, hi);
    } else {
      outcome, contentLen := Error(505), -1;
    }
  }

  /** The part of `process_new_connection` that works on a complete head of length `len`. No byte
      from index `len` on is written. */
  method ServeBuffered(b: array<byte>, len: nat, room: nat, ghost head: Text)
    returns (outcome: Outcome, contentLen: int)
    requires 0 < len <= b.Length && b[..len] == head
    modifies b
    ensures Delivers(b[..], outcome, ServeHead(head, room))
    ensures contentLen == if ServeHead(head, room).Call? then ServeHead(head, room).contentLen else -1
    ensures OnlyWithin(old(b[..]), b[..], 0, len - 1)
  {
    TerminateHead(b, len, head);
    outcome, contentLen := ServeText(b, room, CString(head[..len - 1]));
  }

  lemma CallbackMeansCall(b: Text, outcome: Outcome, served: Served)
    requires Delivers(b, outcome, served)
    ensures outcome.Callback? <==> served.Call?
  {
  }

  /** The call that the head in the buffer asks for, and the body behind it ready to be read. */
  ghost predicate Called(conn: Conn, outcome: Outcome, served: Served)
    reads conn, conn.sock, conn.buf
  {
    && served.Call? && Delivers(conn.buf[..], outcome, served)
    && conn.contentLen == served.contentLen && conn.consumed == 0
    && (conn.contentLen >= -1 ==> conn.BodyValid())
  }

  /** What arrived behind the head is still there. */
  lemma TailKept(before: Text, after: Text, stream: Text, len: nat, dataLen: nat)
    requires OnlyWithin(before, after, 0, len - 1) && dataLen <= |before| && dataLen <= |stream|
    requires forall i :: 0 <= i < dataLen ==> before[i] == stream[i]
    ensures forall i :: len <= i < dataLen ==> after[i] == stream[i]
  {
  }

  /** A complete head is in the buffer, possibly with the beginning of the body behind it. */
  method ServeConnection(conn: Conn, room: nat) returns (outcome: Outcome)
    requires 0 < conn.requestLen <= conn.dataLen <= conn.buf.Length && conn.dataLen <= |conn.stream|
    requires conn.buf[..conn.dataLen] == conn.stream[..conn.dataLen]
    requires conn.sock.pending == conn.stream[conn.dataLen..] && conn.consumed == 0
    modifies conn`contentLen, conn.buf
    ensures Delivers(conn.buf[..], outcome, ServeHead(conn.stream[..conn.requestLen], room))
    ensures outcome.Callback? ==> Called(conn, outcome, ServeHead(conn.stream[..conn.requestLen], room))
  {
    ghost var len, before := conn.requestLen, conn.buf[..];
    assert conn.buf[..conn.requestLen] == conn.stream[..conn.requestLen] by {
      assert conn.buf[..conn.requestLen] == conn.buf[..conn.dataLen][..conn.requestLen];
      assert conn.stream[..conn.requestLen] == conn.stream[..conn.dataLen][..conn.requestLen];
    }
    forall i | 0 <= i < conn.dataLen
      ensures before[i] == conn.stream[i]
    {
      assert before[i] == before[..conn.dataLen][i];
    }
    outcome, conn.contentLen := ServeBuffered(conn.buf, conn.requestLen, room, conn.stream[..conn.requestLen]);
    TailKept(before, conn.buf[..], conn.stream, conn.requestLen, conn.dataLen);
    assert conn.contentLen >= -1 ==> conn.BodyValid();
    CallbackMeansCall(conn.buf[..], outcome, ServeHead(conn.stream[..conn.requestLen], room));
  }

  lemma NoHead(stream: Text, capacity: nat, room: nat, cuts: seq<nat>, len: int)
    requires FramedLen(stream, capacity) == len <= 0
    requires Complete(stream, capacity, cuts, len)
    ensures Serve(stream, capacity, room)
         == if len == 0 && Buffered(cuts) == capacity then Refused(413) else Closed
  {
  }

  /** `process_new_connection` up to the callback. */
  method ProcessRequest(conn: Conn, room: nat) returns (outcome: Outcome)
    requires conn.Fresh()
    modifies conn, conn.sock, conn.buf
    ensures !conn.sock.broken && CleanHead(conn.stream, conn.buf.Length) ==>
              Delivers(conn.buf[..], outcome, Serve(conn.stream, conn.buf.Length, room))
    ensures outcome.Callback? ==> 0 < conn.requestLen == FramedLen(conn.stream, conn.buf.Length) <= |conn.stream|
    ensures outcome.Callback? ==> Called(conn, outcome, ServeHead(conn.stream[..conn.requestLen], room))
    ensures outcome.Callback? ==> conn.requestLen <= conn.dataLen <= conn.buf.Length
    ensures HeadArrivesAtOnce(conn.stream, conn.buf.Length, old(conn.sock.script)) ==>
              && 0 < conn.requestLen == FramedLen(conn.stream, conn.buf.Length) <= |conn.stream|
              && conn.dataLen == old(conn.sock.script)[0] && conn.sock.script == old(conn.sock.script)[1..]
              && Delivers(conn.buf[..], outcome, ServeHead(conn.stream[..conn.requestLen], room))
  {
    ghost var cuts := conn.ReadRequest();
    if conn.requestLen > 0 {
      outcome := ServeConnection(conn, room);
    } else {
      if !conn.sock.broken && CleanHead(conn.stream, conn.buf.Length) {
        NoHead(conn.stream, conn.buf.Length, room, cuts, conn.requestLen);
      }
      outcome := if conn.requestLen == 0 && conn.dataLen == conn.buf.Length then Error(413) else NoAnswer;
    }
  }
}
