/** Printing a request head as section 3 of RFC 7230 has it, and getting it back: first its
    length, from a buffer that goes on with the body, then its fields. */
module HeadRoundTrip {
  import opened Bytes
  import opened RequestHead
  import opened Tokenizer
  import opened HttpHead

  const LF: Text := ['\n']

  /** Section 3.5 of RFC 7230: a line ends with CRLF, and a server may take a line feed for it. */
  predicate IsLineBreak(eol: Text) {
    eol == CRLF || eol == LF
  }

  function HeaderLine(h: Header): Text {
    h.name + COLON + SPACE + h.value
  }

  function PrintHeaders(hs: seq<Header>, eol: Text := CRLF): Text {
    if hs == [] then [] else HeaderLine(hs[0]) + eol + PrintHeaders(hs[1..], eol)
  }

  function RequestWords(verb: Text, uri: Text, protocol: Text): Text {
    verb + SPACE + uri + SPACE + protocol
  }

  function RequestLine(r: Request): Text
    requires r.Request?
  {
    RequestWords(r.verb, r.uri, HTTP + r.version)
  }

  function PrintLines(line: Text, hs: seq<Header>, eol: Text := CRLF): Text {
    line + eol + PrintHeaders(hs, eol) + eol
  }

  function PrintHead(r: Request, eol: Text := CRLF): Text
    requires r.Request?
  {
    PrintLines(RequestLine(r), r.headers, eol)
  }

  predicate Without(t: Text, chars: Text) {
    forall c <- t :: c !in chars
  }

  /** Section 3.2 of RFC 7230: a name without colon, a value that does not start with a space. */
  predicate ValidHeader(h: Header) {
    && h.name != [] && Without(h.name, COLON + CRLF)
    && Without(h.value, CRLF) && (h.value != [] ==> h.value[0] != ' ')
  }

  predicate ValidHeaders(hs: seq<Header>) {
    hs == [] || (ValidHeader(hs[0]) && ValidHeaders(hs[1..]))
  }

  /** Section 3.1.1 of RFC 7230: the target of a request line contains no space. */
  predicate ValidRequest(r: Request) {
    && r.Request? && IsValidMethod(r.verb)
    && r.uri != [] && Without(r.uri, SPACE + CRLF)
    && Without(r.version, CRLF)
    && ValidHeaders(r.headers)
  }

  // ---------- The length of the head ----------

  lemma EndsAtShift(s: Text, t: Text, i: nat)
    ensures EndsAt(s + t, |s| + i) <==> EndsAt(t, i)
    ensures EndsAt(t, i) ==> EndOf(s + t, |s| + i) == |s| + EndOf(t, i)
  {
  }

  /** A prefix in which no head ends only shifts the end. */
  lemma HeadAfterPrefix(s: Text, t: Text)
    requires RequestLen(t) > 0 && forall i :: 0 <= i < |s| ==> !EndsAt(s + t, i)
    ensures RequestLen(s + t) == |s| + RequestLen(t)
  {
    var e := FirstEnd(t, 0);
    EndsAtShift(s, t, e);
    forall j: nat | j < |s| + e
      ensures !EndsAt(s + t, j)
    {
      if j >= |s| {
        EndsAtShift(s, t, j - |s|);
      }
    }
    assert FirstEnd(s + t, 0) == |s| + e;
  }

  /** A line followed by another line, and a line followed by the empty line. */
  lemma LineEnds(line: Text, t: Text, eol: Text)
    requires IsLineBreak(eol) && Without(line, CRLF) && t != []
    ensures t[0] !in CRLF ==> forall i :: 0 <= i < |line| + |eol| ==> !EndsAt(line + eol + t, i)
    ensures eol <= t ==> RequestLen(line + eol + t) == |line| + 2 * |eol|
  {
    var b, k := line + eol + t, |line| + |eol| - 1;
    assert forall i :: 0 <= i < |line| ==> b[i] == line[i] && line[i] in line;
    assert b[|line|] == eol[0] && b[k] == '\n' && b[k + 1] == t[0];
    if eol <= t {
      assert |eol| == 2 ==> b[k + 2] == t[1] == '\n';
      assert EndsAt(b, k) && FirstEnd(b, 0) == k;
    }
  }

  lemma {:induction false} LinesEndAtEmptyLine(line: Text, hs: seq<Header>, body: Text, eol: Text)
    requires IsLineBreak(eol) && Without(line, CRLF) && ValidHeaders(hs)
    ensures RequestLen(line + eol + (PrintHeaders(hs, eol) + eol + body))
         == |line| + |PrintHeaders(hs, eol)| + 2 * |eol|
    decreases |hs|
  {
    var t := PrintHeaders(hs, eol) + eol + body;
    if hs == [] {
      assert t == eol + body;
      LineEnds(line, t, eol);
    } else {
      LinesEndAtEmptyLine(HeaderLine(hs[0]), hs[1..], body, eol);
      assert t == HeaderLine(hs[0]) + eol + (PrintHeaders(hs[1..], eol) + eol + body);
      assert t[0] == hs[0].name[0] && hs[0].name[0] in hs[0].name;
      LineEnds(line, t, eol);
      HeadAfterPrefix(line + eol, t);
    }
  }

  lemma PrintedLinesAreFound(line: Text, hs: seq<Header>, body: Text, eol: Text)
    requires IsLineBreak(eol) && Without(line, CRLF) && ValidHeaders(hs)
    ensures RequestLen(PrintLines(line, hs, eol) + body) == |PrintLines(line, hs, eol)|
  {
    LinesEndAtEmptyLine(line, hs, body, eol);
    assert PrintLines(line, hs, eol) + body == line + eol + (PrintHeaders(hs, eol) + eol + body);
  }

  lemma RequestLineWithoutBreaks(r: Request)
    requires ValidRequest(r)
    ensures Without(RequestLine(r), CRLF)
  {
    assert Without(r.verb, CRLF) && Without(HTTP, CRLF);
  }

  lemma PrintedHeadIsFound(r: Request, body: Text, eol: Text := CRLF)
    requires ValidRequest(r) && IsLineBreak(eol)
    ensures RequestLen(PrintHead(r, eol) + body) == |PrintHead(r, eol)|
  {
    RequestLineWithoutBreaks(r);
    PrintedLinesAreFound(RequestLine(r), r.headers, body, eol);
  }

  // ---------- The fields ----------

  /** A word, its delimiter, white space, and what follows. */
  lemma WordAndRest(w: Text, d: byte, white: Text, x: Text, y: Text, delimiters: Text)
    requires Without(w, delimiters) && d in delimiters && (forall c <- x :: c in white)
    requires y == [] || y[0] !in white
    ensures Word(w + [d] + x + y, delimiters) == w
    ensures Rest(w + [d] + x + y, delimiters, white) == y
  {
    var t := w + [d] + x + y;
    assert forall i :: 0 <= i < |w| ==> t[i] == w[i];
    CSpanIs(t, |w|, delimiters);
    var tail := t[|w| + 1..];
    assert tail == x + y;
    SpanIs(tail, |x|, white);
    assert t[|w| + 1 + |x|..] == y;
  }

  /** What is left of the last line break when its line feed is NUL. */
  function CutBreak(eol: Text): Text
    requires eol != []
  {
    eol[..|eol| - 1]
  }

  /** What the tokenizer sees of the headers: the line feed of the empty line is NUL already, and
      its carriage return, if it has one, is white space after the last value. */
  function HeaderText(hs: seq<Header>, eol: Text): Text
    requires eol != []
  {
    if hs == [] then [] else PrintHeaders(hs, eol) + CutBreak(eol)
  }

  /** A line, its break, and what follows if it starts with no break. */
  lemma LineAndRest(line: Text, eol: Text, x: Text, y: Text)
    requires IsLineBreak(eol) && Without(line, CRLF) && (forall c <- x :: c in CRLF) && (y == [] || y[0] !in CRLF)
    ensures Word(line + eol + (x + y), CRLF) == line && Rest(line + eol + (x + y), CRLF, CRLF) == y
  {
    assert line + eol + (x + y) == line + [eol[0]] + (eol[1..] + x) + y;
    WordAndRest(line, eol[0], CRLF, eol[1..] + x, y, CRLF);
  }

  /** The text after a line that precedes the headers, split into white space and headers. */
  lemma LineThenHeaders(line: Text, hs: seq<Header>, eol: Text)
    requires IsLineBreak(eol) && Without(line, CRLF) && ValidHeaders(hs)
    ensures Word(line + eol + PrintHeaders(hs, eol) + CutBreak(eol), CRLF) == line
    ensures Rest(line + eol + PrintHeaders(hs, eol) + CutBreak(eol), CRLF, CRLF) == HeaderText(hs, eol)
  {
    var t := line + eol + PrintHeaders(hs, eol) + CutBreak(eol);
    if hs == [] {
      assert t == line + eol + (CutBreak(eol) + []);
      LineAndRest(line, eol, CutBreak(eol), []);
    } else {
      assert t == line + eol + ([] + HeaderText(hs, eol));
      assert HeaderText(hs, eol)[0] == hs[0].name[0] && hs[0].name[0] in hs[0].name;
      LineAndRest(line, eol, [], HeaderText(hs, eol));
    }
  }

  lemma HeaderTextParses(h: Header, hs: seq<Header>, t: Text, eol: Text)
    requires IsLineBreak(eol) && ValidHeader(h) && ValidHeaders(hs)
    requires t == h.name + [':'] + [' '] + (h.value + eol + PrintHeaders(hs, eol) + CutBreak(eol))
    ensures FirstHeader(t) == h && AfterHeader(t) == HeaderText(hs, eol)
  {
    var r := h.value + eol + PrintHeaders(hs, eol) + CutBreak(eol);
    assert r[0] == if h.value == [] then eol[0] else h.value[0];
    WordAndRest(h.name, ':', SPACE, [' '], r, COLON);
    LineThenHeaders(h.value, hs, eol);
  }

  /** Reading headers off `t` one by one gives `hs`. */
  ghost predicate Yields(t: Text, first: Text -> Header, after: Text -> Text, hs: seq<Header>)
    decreases |hs|
  {
    if hs == [] then first(t).name == []
    else first(t) == hs[0] && hs[0].name != [] && Yields(after(t), first, after, hs[1..])
  }

  lemma {:induction false} HeaderTextYields(hs: seq<Header>, eol: Text)
    requires IsLineBreak(eol) && ValidHeaders(hs)
    ensures Yields(HeaderText(hs, eol), FirstHeader, AfterHeader, hs)
  {
    if hs == [] {
      assert Word([], COLON) == [];
    } else {
      var h, t := hs[0], HeaderText(hs, eol);
      assert t == h.name + [':'] + [' '] + (h.value + eol + PrintHeaders(hs[1..], eol) + CutBreak(eol));
      HeaderTextParses(h, hs[1..], t, eol);
      HeaderTextYields(hs[1..], eol);
    }
  }

  function FirstN(hs: seq<Header>, n: nat): seq<Header>
    decreases n
  {
    if n == 0 || hs == [] then [] else [hs[0]] + FirstN(hs[1..], n - 1)
  }

  lemma {:induction false} FirstNIsPrefix(hs: seq<Header>, n: nat)
    ensures FirstN(hs, n) == hs[..Min(n, |hs|)]
    decreases n
  {
    if n > 0 && hs != [] {
      FirstNIsPrefix(hs[1..], n - 1);
    }
  }

  lemma {:induction false} YieldedHeadersAreGathered(t: Text, first: Text -> Header, after: Text -> Text,
                                                     hs: seq<Header>, room: nat)
    requires Yields(t, first, after, hs)
    ensures Gathered(t, first, after, room) == FirstN(hs, room)
    decreases room
  {
    if hs != [] && room > 0 {
      YieldedHeadersAreGathered(after(t), first, after, hs[1..], room - 1);
    }
  }

  lemma HeadersParse(hs: seq<Header>, room: nat, eol: Text := CRLF)
    requires IsLineBreak(eol) && ValidHeaders(hs)
    ensures ParseHeaders(HeaderText(hs, eol), room) == hs[..Min(room, |hs|)]
  {
    HeaderTextYields(hs, eol);
    YieldedHeadersAreGathered(HeaderText(hs, eol), FirstHeader, AfterHeader, hs, room);
    FirstNIsPrefix(hs, room);
  }

  /** Three words for a request line; what the third one is does not matter yet. */
  predicate ValidWords(verb: Text, uri: Text, protocol: Text) {
    && verb != [] && Without(verb, SPACE + CRLF) && verb[0] !in WHITE
    && uri != [] && Without(uri, SPACE + CRLF)
    && Without(protocol, CRLF) && (protocol != [] ==> protocol[0] != ' ')
  }

  /** The rest of the text from the protocol on. */
  function ProtocolOnwards(protocol: Text, hs: seq<Header>, eol: Text): Text
    requires eol != []
  {
    protocol + eol + PrintHeaders(hs, eol) + CutBreak(eol)
  }

  /** The printed lines, their last byte left out. */
  lemma LinesWithoutLast(line: Text, hs: seq<Header>, eol: Text)
    requires eol != []
    ensures PrintLines(line, hs, eol)[..|PrintLines(line, hs, eol)| - 1]
         == line + eol + PrintHeaders(hs, eol) + CutBreak(eol)
  {
  }

  lemma WordsParse(verb: Text, uri: Text, onwards: Text)
    requires verb != [] && Without(verb, SPACE) && uri != [] && Without(uri, SPACE)
    requires onwards != [] && onwards[0] != ' '
    ensures var t := verb + SPACE + uri + SPACE + onwards;
            && t[0] == verb[0] && Word(t, SPACE) == verb && Word(Rest(t, SPACE, SPACE), SPACE) == uri
            && Rest(Rest(t, SPACE, SPACE), SPACE, SPACE) == onwards
  {
    var afterVerb := uri + [' '] + [] + onwards;
    assert verb + SPACE + uri + SPACE + onwards == verb + [' '] + [] + afterVerb;
    assert uri[0] in uri && afterVerb[0] == uri[0];
    WordAndRest(verb, ' ', SPACE, [], afterVerb, SPACE);
    WordAndRest(uri, ' ', SPACE, [], onwards, SPACE);
  }

  lemma WordsAndOnwards(verb: Text, uri: Text, protocol: Text, hs: seq<Header>, eol: Text)
    requires eol != []
    ensures RequestWords(verb, uri, protocol) + eol + PrintHeaders(hs, eol) + CutBreak(eol)
         == verb + SPACE + uri + SPACE + ProtocolOnwards(protocol, hs, eol)
  {
  }

  lemma WordsAre(t: Text, verb: Text, uri: Text, protocol: Text, onwards: Text, room: nat)
    requires t != [] && t[0] !in WHITE && Word(t, SPACE) == verb && Word(Rest(t, SPACE, SPACE), SPACE) == uri
    requires Rest(Rest(t, SPACE, SPACE), SPACE, SPACE) == onwards && Word(onwards, CRLF) == protocol
    ensures ParseRequest(t, room)
         == if IsValidMethod(verb) && HTTP <= protocol
            then Request(verb, uri, protocol[|HTTP|..], ParseHeaders(Rest(onwards, CRLF, CRLF), room)) else Malformed
  {
    SpanIs(t, 0, WHITE);
    assert t[0..] == t;
  }

  /** What the tokenizer makes of three words and headers. */
  function Parsed(known: bool, verb: Text, uri: Text, protocol: Text, hs: seq<Header>, room: nat): Request {
    if known && HTTP <= protocol then Request(verb, uri, protocol[|HTTP|..], hs[..Min(room, |hs|)]) else Malformed
  }

  lemma TextParses(text: Text, verb: Text, uri: Text, protocol: Text, hs: seq<Header>, room: nat, eol: Text,
                   known: bool)
    requires IsLineBreak(eol) && ValidWords(verb, uri, protocol) && ValidHeaders(hs) && known == IsValidMethod(verb)
    requires text == verb + SPACE + uri + SPACE + ProtocolOnwards(protocol, hs, eol)
    ensures ParseRequest(text, room) == Parsed(known, verb, uri, protocol, hs, room)
  {
    var onwards := ProtocolOnwards(protocol, hs, eol);
    assert onwards[0] == if protocol == [] then eol[0] else protocol[0];
    WordsParse(verb, uri, onwards);
    LineThenHeaders(protocol, hs, eol);
    HeadersParse(hs, room, eol);
    WordsAre(text, verb, uri, protocol, onwards, room);
  }

  lemma TextOfLines(verb: Text, uri: Text, protocol: Text, hs: seq<Header>, eol: Text)
    requires eol != []
    ensures var t := PrintLines(RequestWords(verb, uri, protocol), hs, eol);
            t[..|t| - 1] == verb + SPACE + uri + SPACE + ProtocolOnwards(protocol, hs, eol)
  {
    LinesWithoutLast(RequestWords(verb, uri, protocol), hs, eol);
    WordsAndOnwards(verb, uri, protocol, hs, eol);
  }

  /** The tokenizer recovers the words and the headers of a printed head whose last byte became NUL, if
      the first word is a method and the third one starts like a protocol version. */
  lemma LinesParse(verb: Text, uri: Text, protocol: Text, hs: seq<Header>, room: nat, eol: Text, known: bool)
    requires IsLineBreak(eol) && ValidWords(verb, uri, protocol) && ValidHeaders(hs) && known == IsValidMethod(verb)
    ensures var t := PrintLines(RequestWords(verb, uri, protocol), hs, eol);
            ParseRequest(t[..|t| - 1], room) == Parsed(known, verb, uri, protocol, hs, room)
  {
    var t := PrintLines(RequestWords(verb, uri, protocol), hs, eol);
    TextOfLines(verb, uri, protocol, hs, eol);
    TextParses(t[..|t| - 1], verb, uri, protocol, hs, room, eol, known);
  }

  lemma ValidRequestWords(r: Request)
    requires ValidRequest(r)
    ensures ValidWords(r.verb, r.uri, HTTP + r.version)
  {
  }

  lemma ParsedIsRequest(r: Request, room: nat)
    requires r.Request?
    ensures Parsed(true, r.verb, r.uri, HTTP + r.version, r.headers, room)
         == r.(headers := r.headers[..Min(room, |r.headers|)])
  {
    assert HTTP <= HTTP + r.version && (HTTP + r.version)[|HTTP|..] == r.version;
  }

  lemma HeadIsLines(r: Request, eol: Text)
    requires r.Request?
    ensures PrintHead(r, eol) == PrintLines(RequestWords(r.verb, r.uri, HTTP + r.version), r.headers, eol)
  {
  }

  lemma HeadParses(r: Request, room: nat, eol: Text, known: bool)
    requires r.Request? && IsLineBreak(eol) && ValidWords(r.verb, r.uri, HTTP + r.version) && ValidHeaders(r.headers)
    requires known == IsValidMethod(r.verb)
    ensures ParseRequest(PrintHead(r, eol)[..|PrintHead(r, eol)| - 1], room)
         == Parsed(known, r.verb, r.uri, HTTP + r.version, r.headers, room)
  {
    HeadIsLines(r, eol);
    TextOfLines(r.verb, r.uri, HTTP + r.version, r.headers, eol);
    TextParses(PrintHead(r, eol)[..|PrintHead(r, eol)| - 1], r.verb, r.uri, HTTP + r.version, r.headers, room, eol,
               known);
  }

  /** The tokenizer recovers the fields of a printed head whose last byte became NUL, and the
      headers for which there is room. */
  lemma RequestRoundTrip(r: Request, room: nat, eol: Text := CRLF)
    requires ValidRequest(r) && IsLineBreak(eol)
    ensures ParseRequest(PrintHead(r, eol)[..|PrintHead(r, eol)| - 1], room)
         == r.(headers := r.headers[..Min(room, |r.headers|)])
  {
    ValidRequestWords(r);
    HeadParses(r, room, eol, true);
    ParsedIsRequest(r, room);
  }
}
