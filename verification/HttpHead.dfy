/** The request line and the headers: parsed in place, printed, and parsed back. */
module HttpHead {
  import opened Bytes
  import opened Tokenizer

  const HTTP: Text := ['H', 'T', 'T', 'P', '/']
  const GET: Text := ['G', 'E', 'T']
  const POST: Text := ['P', 'O', 'S', 'T']
  const DELETE: Text := ['D', 'E', 'L', 'E', 'T', 'E']
  const OPTIONS: Text := ['O', 'P', 'T', 'I', 'O', 'N', 'S']
  /** What `isspace` accepts. */
  const WHITE: Text := [' ', '\t', '\n', 11 as char, 12 as char, '\r']

  predicate IsValidMethod(verb: Text) {
    verb == GET || verb == POST || verb == DELETE || verb == OPTIONS
  }

  datatype Header = Header(name: Text, value: Text)

  datatype Request =
    | Malformed
    | Request(verb: Text, uri: Text, version: Text, headers: seq<Header>)

  // ---------- Parsing, on text ----------

  function AfterHeader(t: Text): Text {
    Rest(Rest(t, COLON, SPACE), CRLF, CRLF)
  }

  function FirstHeader(t: Text): Header {
    Header(Word(t, COLON), Word(Rest(t, COLON, SPACE), CRLF))
  }

  /** Headers are taken off the text as long as there is room and a name. */
  function Gathered(t: Text, first: Text -> Header, after: Text -> Text, room: nat): seq<Header>
    decreases room
  {
    if room == 0 || first(t).name == [] then [] else [first(t)] + Gathered(after(t), first, after, room - 1)
  }

  function ParseHeaders(t: Text, room: nat): seq<Header> {
    Gathered(t, FirstHeader, AfterHeader, room)
  }

  /** `room` is the number of header slots of `struct mg_request_info`. */
  function ParseWords(t: Text, room: nat): Request {
    var afterVerb := Rest(t, SPACE, SPACE);
    var afterUri := Rest(afterVerb, SPACE, SPACE);
    var version := Word(afterUri, CRLF);
    if IsValidMethod(Word(t, SPACE)) && HTTP <= version
    then Request(Word(t, SPACE), Word(afterVerb, SPACE), version[|HTTP|..],
                 ParseHeaders(Rest(afterUri, CRLF, CRLF), room))
    else Malformed
  }

  function ParseRequest(text: Text, room: nat): Request {
    ParseWords(text[Span(text, WHITE)..], room)
  }

  // ---------- Parsing, in place ----------

  /** Where a header's two strings stand in the buffer. */
  datatype Slot = Slot(nameAt: nat, valueAt: nat)

  /** The slots hold the headers, inside `[lo, hi]`. */
  ghost predicate HoldsHeaders(b: Text, slots: seq<Slot>, hs: seq<Header>, lo: nat, hi: nat) {
    && |slots| == |hs|
    && forall i :: 0 <= i < |hs| ==> HoldsHeader(b, slots[i], hs[i], lo, hi)
  }

  ghost predicate HoldsHeader(b: Text, slot: Slot, h: Header, lo: nat, hi: nat) {
    && lo <= slot.nameAt && slot.nameAt + |h.name| <= hi && IsString(b, slot.nameAt, h.name)
    && lo <= slot.valueAt && slot.valueAt + |h.value| <= hi && IsString(b, slot.valueAt, h.value)
  }

  lemma HeadersKept(before: Text, after: Text, slots: seq<Slot>, hs: seq<Header>, lo: nat, p: nat, hi: nat)
    requires HoldsHeaders(before, slots, hs, lo, p) && p <= hi && Cleared(before, after, p, hi)
    ensures HoldsHeaders(after, slots, hs, lo, hi)
  {
    forall i | 0 <= i < |hs|
      ensures HoldsHeader(after, slots[i], hs[i], lo, hi)
    {
      assert HoldsHeader(before, slots[i], hs[i], lo, p);
      StringKept(before, after, p, hi, slots[i].nameAt, hs[i].name);
      StringKept(before, after, p, hi, slots[i].valueAt, hs[i].value);
    }
  }

  /** One name and one value, and where the next line starts. */
  method ParseHeader(b: array<byte>, p: nat, ghost t: Text) returns (slot: Slot, next: nat)
    requires IsString(b[..], p, t)
    modifies b
    ensures p <= next && next + |AfterHeader(t)| == p + |t| && IsString(b[..], next, AfterHeader(t))
    ensures HoldsHeader(b[..], slot, FirstHeader(t), p, next)
    ensures Cleared(old(b[..]), b[..], p, next)
  {
    ghost var b0 := b[..];
    var valueAt := Skip(b, p, COLON, SPACE, t);
    ghost var b1 := b[..];
    next := Skip(b, valueAt, CRLF, CRLF, Rest(t, COLON, SPACE));
    StringKept(b1, b[..], valueAt, next, p, Word(t, COLON));
    ClearedTwice(b0, b1, b[..], p, valueAt, next);
    slot := Slot(p, valueAt);
  }

  /** The headers in `done` stand before `next`; the rest of the text stands at `next`. */
  ghost predicate Parsing(before: Text, b: Text, p: nat, t: Text, slots: seq<Slot>, done: seq<Header>,
                          next: nat, rest: Text)
  {
    && p <= next && next + |rest| == p + |t| && IsString(b, next, rest)
    && HoldsHeaders(b, slots, done, p, next)
    && Cleared(before, b, p, next)
  }

  lemma HeaderAppended(b0: Text, b1: Text, b2: Text, p: nat, t: Text, slots: seq<Slot>, done: seq<Header>,
                       at: nat, rest: Text, slot: Slot, next: nat)
    requires Parsing(b0, b1, p, t, slots, done, at, rest)
    requires at <= next && next + |AfterHeader(rest)| == at + |rest| && IsString(b2, next, AfterHeader(rest))
    requires HoldsHeader(b2, slot, FirstHeader(rest), at, next)
    requires Cleared(b1, b2, at, next)
    ensures Parsing(b0, b2, p, t, slots, done, next, AfterHeader(rest))
    ensures Parsing(b0, b2, p, t, slots + [slot], done + [FirstHeader(rest)], next, AfterHeader(rest))
  {
    HeadersKept(b1, b2, slots, done, p, at, next);
    ClearedTwice(b0, b1, b2, p, at, next);
    var slots', done' := slots + [slot], done + [FirstHeader(rest)];
    forall i | 0 <= i < |done'|
      ensures HoldsHeader(b2, slots'[i], done'[i], p, next)
    {
      assert i < |done| ==> HoldsHeader(b2, slots[i], done[i], p, next);
    }
  }

  lemma ParsingDone(b0: Text, b: Text, p: nat, t: Text, slots: seq<Slot>, done: seq<Header>, next: nat, rest: Text)
    requires Parsing(b0, b, p, t, slots, done, next, rest)
    ensures HoldsHeaders(b, slots, done, p, p + |t|) && Cleared(b0, b, p, p + |t|)
  {
    HeadersKept(b, b, slots, done, p, next, p + |t|);
  }

  lemma ParseHeadersUnfold(rest: Text, room: nat)
    requires room > 0
    ensures ParseHeaders(rest, room)
         == if FirstHeader(rest).name == [] then []
            else [FirstHeader(rest)] + ParseHeaders(AfterHeader(rest), room - 1)
  {
  }

  lemma Append<T>(done: seq<T>, x: T, tail: seq<T>)
    ensures done + ([x] + tail) == (done + [x]) + tail && done + [] == done
  {
  }

  lemma ParseHeadersStep(done: seq<Header>, rest: Text, room: nat)
    requires room > 0
    ensures FirstHeader(rest).name == [] ==> done + ParseHeaders(rest, room) == done
    ensures FirstHeader(rest).name != [] ==>
              (done + ParseHeaders(rest, room)
               == (done + [FirstHeader(rest)]) + ParseHeaders(AfterHeader(rest), room - 1))
  {
    ParseHeadersUnfold(rest, room);
    Append(done, FirstHeader(rest), ParseHeaders(AfterHeader(rest), room - 1));
  }

  /** One round of the loop: another header, or an empty name. */
  method NextHeader(b: array<byte>, slots: seq<Slot>, at: nat, ghost b0: Text, ghost p: nat, ghost t: Text,
                    ghost done: seq<Header>, ghost rest: Text)
    returns (slot: Slot, next: nat, more: bool)
    requires Parsing(b0, b[..], p, t, slots, done, at, rest)
    modifies b
    ensures more <==> FirstHeader(rest).name != []
    ensures more ==>
      Parsing(b0, b[..], p, t, slots + [slot], done + [FirstHeader(rest)], next, AfterHeader(rest))
    ensures !more ==> HoldsHeaders(b[..], slots, done, p, p + |t|) && Cleared(b0, b[..], p, p + |t|)
  {
    ghost var b1 := b[..];
    slot, next := ParseHeader(b, at, rest);
    HeaderAppended(b0, b1, b[..], p, t, slots, done, at, rest, slot, next);
    assert FirstHeader(rest).name != [] ==> b[..][slot.nameAt] != NUL;
    more := b[slot.nameAt] != NUL;
    if !more {
      ParsingDone(b0, b[..], p, t, slots, done, next, AfterHeader(rest));
    }
  }

  /** `parse_http_headers`: as many headers as there are slots, up to the first empty name. */
  method ParseHeadersInPlace(b: array<byte>, p: nat, room: nat, ghost t: Text) returns (slots: seq<Slot>)
    requires IsString(b[..], p, t)
    modifies b
    ensures HoldsHeaders(b[..], slots, ParseHeaders(t, room), p, p + |t|)
    ensures Cleared(old(b[..]), b[..], p, p + |t|)
  {
    slots := [];
    var next, i := p, 0;
    ghost var rest, done: seq<Header> := t, [];
    ghost var b0 := b[..];
    while i < room
      invariant i <= room
      invariant Parsing(b0, b[..], p, t, slots, done, next, rest)
      invariant ParseHeaders(t, room) == done + ParseHeaders(rest, room - i)
    {
      ParseHeadersStep(done, rest, room - i);
      var slot, more;
      slot, next, more := NextHeader(b, slots, next, b0, p, t, done, rest);
      if !more {
        return;
      }
      slots, done, rest, i := slots + [slot], done + [FirstHeader(rest)], AfterHeader(rest), i + 1;
    }
    ParsingDone(b0, b[..], p, t, slots, done, next, rest);
  }

  // ---------- The request line, in place ----------

  /** `strncmp` against a literal: does the string at `p` start with `w`? */
  method StartsWith(b: array<byte>, p: nat, w: Text, ghost t: Text) returns (r: bool)
    requires IsString(b[..], p, t) && NulFree(w)
    ensures r <==> w <= t
  {
    var i := 0;
    while i < |w|
      invariant i <= |w| && i <= |t| && w[..i] == t[..i]
    {
      assert i < |t| ==> b[..][p + i] == t[i];
      assert w[i] in w;
      if b[p + i] != w[i] {
        return false;
      }
      i := i + 1;
    }
    return true;
  }

  /** `strcmp` against a literal. */
  method Equals(b: array<byte>, p: nat, w: Text, ghost t: Text) returns (r: bool)
    requires IsString(b[..], p, t) && NulFree(w)
    ensures r <==> t == w
  {
    r := StartsWith(b, p, w, t);
    if r {
      assert |w| < |t| ==> b[..][p + |w|] != NUL;
      assert b[..][p + |w|] == b[p + |w|];
      r := b[p + |w|] == NUL;
    }
  }

  method HasValidMethod(b: array<byte>, p: nat, ghost t: Text) returns (r: bool)
    requires IsString(b[..], p, t)
    ensures r <==> IsValidMethod(t)
  {
    var get := Equals(b, p, GET, t);
    var post := Equals(b, p, POST, t);
    var delete := Equals(b, p, DELETE, t);
    var options := Equals(b, p, OPTIONS, t);
    r := get || post || delete || options;
  }

  datatype Info = Info(verbAt: nat, uriAt: nat, versionAt: nat, slots: seq<Slot>)

  /** The strings of the request stand in the buffer one behind the other, below `hi`; in front of the
      URI stands a NUL. */
  ghost predicate HoldsRequest(b: Text, info: Info, r: Request, hi: nat) {
    && r.Request?
    && IsString(b, info.verbAt, r.verb) && info.verbAt + |r.verb| < info.uriAt
    && IsString(b, info.uriAt, r.uri) && b[info.uriAt - 1] == NUL && info.uriAt + |r.uri| < info.versionAt
    && IsString(b, info.versionAt, r.version) && info.versionAt + |r.version| <= hi
    && HoldsHeaders(b, info.slots, r.headers, info.versionAt, hi)
  }

  /** The three words of the request line, and where the headers start. */
  ghost predicate HoldsLine(b: Text, info: Info, verb: Text, uri: Text, version: Text, next: nat) {
    && IsString(b, info.verbAt, verb) && info.verbAt + |verb| <= info.uriAt
    && IsString(b, info.uriAt, uri) && info.uriAt + |uri| <= info.versionAt
    && IsString(b, info.versionAt, version) && info.versionAt + |version| <= next
  }

  method ParseLine(b: array<byte>, p: nat, ghost t: Text) returns (info: Info, next: nat)
    requires IsString(b[..], p, t)
    modifies b
    ensures var afterVerb := Rest(t, SPACE, SPACE);
            var afterUri := Rest(afterVerb, SPACE, SPACE);
            && p <= next && next + |Rest(afterUri, CRLF, CRLF)| == p + |t|
            && IsString(b[..], next, Rest(afterUri, CRLF, CRLF))
            && HoldsLine(b[..], info, Word(t, SPACE), Word(afterVerb, SPACE), Word(afterUri, CRLF), next)
            && (afterVerb != [] ==> info.verbAt + |Word(t, SPACE)| < info.uriAt && b[info.uriAt - 1] == NUL)
            && (afterUri != [] ==> info.uriAt + |Word(afterVerb, SPACE)| < info.versionAt)
    ensures Cleared(old(b[..]), b[..], p, next)
  {
    ghost var b0 := b[..];
    ghost var afterVerb := Rest(t, SPACE, SPACE);
    ghost var afterUri := Rest(afterVerb, SPACE, SPACE);
    var uriAt := Skip(b, p, SPACE, SPACE, t);
    ghost var b1 := b[..];
    var versionAt := Skip(b, uriAt, SPACE, SPACE, afterVerb);
    ghost var b2 := b[..];
    next := Skip(b, versionAt, CRLF, CRLF, afterUri);
    ClearedTwice(b0, b1, b2, p, uriAt, versionAt);
    ClearedTwice(b0, b2, b[..], p, versionAt, next);
    StringKept(b1, b2, uriAt, versionAt, p, Word(t, SPACE));
    StringKept(b2, b[..], versionAt, next, p, Word(t, SPACE));
    StringKept(b2, b[..], versionAt, next, uriAt, Word(afterVerb, SPACE));
    info := Info(p, uriAt, versionAt, []);
  }

  lemma LineKept(before: Text, after: Text, info: Info, verb: Text, uri: Text, version: Text, next: nat, hi: nat)
    requires HoldsLine(before, info, verb, uri, version, next) && Cleared(before, after, next, hi)
    ensures HoldsLine(after, info, verb, uri, version, next)
  {
    StringKept(before, after, next, hi, info.verbAt, verb);
    StringKept(before, after, next, hi, info.uriAt, uri);
    StringKept(before, after, next, hi, info.versionAt, version);
  }

  lemma HeadersBelow(b: Text, slots: seq<Slot>, hs: seq<Header>, lo: nat, lower: nat, hi: nat)
    requires HoldsHeaders(b, slots, hs, lo, hi) && lower <= lo
    ensures HoldsHeaders(b, slots, hs, lower, hi)
  {
    forall i | 0 <= i < |hs|
      ensures HoldsHeader(b, slots[i], hs[i], lower, hi)
    {
      assert HoldsHeader(b, slots[i], hs[i], lo, hi);
    }
  }

  /** The headers behind an accepted request line. */
  method ParseAcceptedHeaders(b: array<byte>, line: Info, next: nat, room: nat,
                              ghost verb: Text, ghost uri: Text, ghost version: Text, ghost rest: Text)
    returns (info: Info)
    requires IsString(b[..], next, rest) && HoldsLine(b[..], line, verb, uri, version, next)
    requires line.verbAt + |verb| < line.uriAt && line.uriAt + |uri| < line.versionAt && HTTP <= version
    requires b[line.uriAt - 1] == NUL
    modifies b
    ensures HoldsRequest(b[..], info, Request(verb, uri, version[|HTTP|..], ParseHeaders(rest, room)), next + |rest|)
    ensures Cleared(old(b[..]), b[..], next, next + |rest|)
  {
    ghost var b1 := b[..];
    var slots := ParseHeadersInPlace(b, next, room, rest);
    LineKept(b1, b[..], line, verb, uri, version, next, next + |rest|);
    SuffixIsString(b[..], line.versionAt, version, |HTTP|);
    HeadersBelow(b[..], slots, ParseHeaders(rest, room), next, line.versionAt + |HTTP|, next + |rest|);
    info := Info(line.verbAt, line.uriAt, line.versionAt + |HTTP|, slots);
  }

  /** A protocol version stands behind two words. */
  lemma VersionIsThird(t: Text)
    requires HTTP <= Word(Rest(Rest(t, SPACE, SPACE), SPACE, SPACE), CRLF)
    ensures Rest(t, SPACE, SPACE) != [] && Rest(Rest(t, SPACE, SPACE), SPACE, SPACE) != []
  {
  }

  method ParseWordsInPlace(b: array<byte>, p: nat, room: nat, ghost t: Text) returns (ok: bool, info: Info)
    requires IsString(b[..], p, t)
    modifies b
    ensures ok <==> ParseWords(t, room).Request?
    ensures ok ==> HoldsRequest(b[..], info, ParseWords(t, room), p + |t|)
    ensures Cleared(old(b[..]), b[..], p, p + |t|)
  {
    hide Rest, ParseHeaders, HoldsRequest;
    ghost var b0 := b[..];
    var next;
    info, next := ParseLine(b, p, t);
    ghost var b1 := b[..];
    ghost var afterVerb := Rest(t, SPACE, SPACE);
    ghost var afterUri := Rest(afterVerb, SPACE, SPACE);
    ok := HasValidMethod(b, info.verbAt, Word(t, SPACE));
    if ok {
      ok := StartsWith(b, info.versionAt, HTTP, Word(afterUri, CRLF));
    }
    if ok {
      VersionIsThird(t);
      info := ParseAcceptedHeaders(b, info, next, room, Word(t, SPACE), Word(afterVerb, SPACE),
                                   Word(afterUri, CRLF), Rest(afterUri, CRLF, CRLF));
    }
    ClearedTwice(b0, b1, b[..], p, next, p + |t|);
  }

  /** `parse_http_request`. Writes nothing outside the text it parses. */
  method ParseRequestInPlace(b: array<byte>, room: nat, ghost text: Text) returns (ok: bool, info: Info)
    requires IsString(b[..], 0, text)
    modifies b
    ensures ok <==> ParseRequest(text, room).Request?
    ensures ok ==> HoldsRequest(b[..], info, ParseRequest(text, room), |text|)
    ensures Cleared(old(b[..]), b[..], 0, |text|)
  {
    var blanks := StrSpn(b, 0, WHITE, text);
    SuffixIsString(b[..], 0, text, blanks);
    ok, info := ParseWordsInPlace(b, blanks, room, text[blanks..]);
  }
}
