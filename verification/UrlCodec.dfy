/** URL encoding and the bounded decoder of the DIAL server, next to the decoder of the HTTP
    server that works in place. */
module UrlCodec {
  import opened Bytes
  import opened Tokenizer
  import opened UriPath
  import opened UrlLib

  // ---------- Decoding ----------

  /** What a decoder left in its destination, and whether it reached the end. */
  datatype Decoded = Decoded(text: Text, complete: bool)

  /** At most `maxSize` bytes; a percent sign without two digits stops it. */
  function UrlDecoded(src: Text, maxSize: nat): Decoded
    decreases maxSize
  {
    if maxSize == 0 || src == [] then Decoded([], true)
    else if src[0] == '%' && !Escaped(src) then Decoded([], false)
    else
      var rest := UrlDecoded(src[EncodedSize(src)..], maxSize - 1);
      Decoded([DecodedByte(src, true)] + rest.text, rest.complete)
  }

  /** The conversion of an `int` to `char`, read as an unsigned byte. */
  function CutToChar(v: int): byte {
    (v % 256) as char
  }

  /** The cut arithmetic loses nothing, and the digits of the result are the two digits. */
  lemma HexPairIs(x: byte, y: byte)
    requires IsHex(x) && IsHex(y)
    ensures CutToChar(Code(CutToChar(16 * HexValue(x))) + HexValue(y)) == FromHexPair(x, y)
    ensures Code(FromHexPair(x, y)) / 16 == HexValue(x) && Code(FromHexPair(x, y)) % 16 == HexValue(y)
  {
  }

  /** The range tests on one digit. */
  method ReadHexDigit(c: byte) returns (ok: bool, v: int)
    ensures ok <==> IsHex(c)
    ensures ok ==> v == HexValue(c)
  {
    ok, v := true, 0;
    if 'a' <= c <= 'f' {
      v := 10 + Code(c) - Code('a');
    } else if 'A' <= c <= 'F' {
      v := 10 + Code(c) - Code('A');
    } else if '0' <= c <= '9' {
      v := Code(c) - Code('0');
    } else {
      ok := false;
    }
  }

  /** Writes the byte whose two hexadecimal digits are `x` and `y`, or nothing. */
  method AppendCharFromHex(b: array<byte>, at: nat, x: byte, y: byte) returns (ok: bool)
    requires at < b.Length
    modifies b
    ensures ok <==> IsHex(x) && IsHex(y)
    ensures ok ==> Code(b[at]) / 16 == HexValue(x) && Code(b[at]) % 16 == HexValue(y)
    ensures b[..] == if ok then old(b[..])[at := FromHexPair(x, y)] else old(b[..])
  {
    var first, high := ReadHexDigit(x);
    if !first {
      return false;
    }
    var second, low := ReadHexDigit(y);
    if !second {
      return false;
    }
    HexPairIs(x, y);
    b[at] := CutToChar(Code(CutToChar(16 * high)) + low);
    return true;
  }

  /** `done` was decoded from the first `i` bytes. */
  ghost predicate DecodedSoFar(src: Text, maxSize: nat, i: nat, done: Text) {
    && i <= |src| && |done| <= maxSize
    && UrlDecoded(src, maxSize)
         == Decoded(done + UrlDecoded(src[i..], maxSize - |done|).text, UrlDecoded(src[i..], maxSize - |done|).complete)
  }

  lemma OneMoreDecoded(src: Text, maxSize: nat, i: nat, done: Text)
    requires DecodedSoFar(src, maxSize, i, done) && i < |src| && |done| < maxSize
    requires src[i] == '%' ==> Escaped(src[i..])
    ensures DecodedSoFar(src, maxSize, i + EncodedSize(src[i..]), done + [DecodedByte(src[i..], true)])
  {
    var next := i + EncodedSize(src[i..]);
    assert src[i..][EncodedSize(src[i..])..] == src[next..];
    var rest := UrlDecoded(src[next..], maxSize - |done| - 1);
    assert done + ([DecodedByte(src[i..], true)] + rest.text) == done + [DecodedByte(src[i..], true)] + rest.text;
  }

  lemma DecodingStopsAt(src: Text, maxSize: nat, i: nat, done: Text)
    requires DecodedSoFar(src, maxSize, i, done)
    ensures i == |src| || |done| == maxSize ==> UrlDecoded(src, maxSize) == Decoded(done, true)
    ensures i < |src| && |done| < maxSize && src[i] == '%' && !Escaped(src[i..]) ==>
              UrlDecoded(src, maxSize) == Decoded(done, false)
    ensures |done| <= |UrlDecoded(src, maxSize).text|
    ensures i < |src| && |done| < maxSize && (src[i] == '%' ==> Escaped(src[i..])) ==>
              |done| < |UrlDecoded(src, maxSize).text|
  {
    assert done + [] == done;
    if i == |src| {
      assert src[i..] == [];
    }
  }

  /** `done` stands at `at`, and nothing else was written. */
  ghost predicate Written(before: Text, b: Text, at: nat, done: Text) {
    && at + |done| <= |b| && OnlyWithin(before, b, at, at + |done| - 1)
    && forall k :: at <= k < at + |done| ==> b[k] == done[k - at]
  }

  /** `done` stands at `at`, terminated, and nothing else was written. */
  ghost predicate Terminated(before: Text, b: Text, at: nat, done: Text) {
    && at + |done| < |b| && b[at..at + |done|] == done && b[at + |done|] == NUL
    && OnlyWithin(before, b, at, at + |done|)
  }

  lemma WrittenMore(before: Text, b: Text, at: nat, done: Text, c: byte)
    requires Written(before, b, at, done) && at + |done| < |b|
    ensures Written(before, b[at + |done| := c], at, done + [c])
  {
  }

  lemma WrittenThenTerminated(before: Text, b: Text, at: nat, done: Text)
    requires Written(before, b, at, done) && at + |done| < |b|
    ensures Terminated(before, b[at + |done| := NUL], at, done)
  {
  }

  /** One round: decodes the next byte behind `done`, or finds a malformed escape. */
  method DecodeNext(b: array<byte>, at: nat, src: Text, maxSize: nat, i: nat, ghost done: Text, len: nat,
                    ghost before: Text)
    returns (step: nat, ok: bool)
    requires DecodedSoFar(src, maxSize, i, done) && i < |src| && len == |done| < maxSize
    requires Written(before, b[..], at, done) && at + |done| < b.Length
    modifies b
    ensures ok <==> (src[i] == '%' ==> Escaped(src[i..]))
    ensures !ok ==> UrlDecoded(src, maxSize) == Decoded(done, false) && Written(before, b[..], at, done)
    ensures ok ==> step == EncodedSize(src[i..])
    ensures ok ==> DecodedSoFar(src, maxSize, i + step, done + [DecodedByte(src[i..], true)])
    ensures ok ==> Written(before, b[..], at, done + [DecodedByte(src[i..], true)])
  {
    DecodingStopsAt(src, maxSize, i, done);
    WrittenMore(before, b[..], at, done, DecodedByte(src[i..], true));
    step, ok := DecodeStepInto(b, at + len, src, i);
    if ok {
      OneMoreDecoded(src, maxSize, i, done);
    }
  }

  /** `urldecode`: returns the decoded length, or 0 for a malformed escape, behind which it left
      what it had decoded. */
  method UrlDecodeInto(b: array<byte>, at: nat, src: Text, maxSize: nat) returns (len: nat)
    requires NulFree(src) && at + |UrlDecoded(src, maxSize).text| < b.Length
    modifies b
    ensures len == if UrlDecoded(src, maxSize).complete then |UrlDecoded(src, maxSize).text| else 0
    ensures Terminated(old(b[..]), b[..], at, UrlDecoded(src, maxSize).text)
  {
    len := 0;
    var i := 0;
    ghost var done: Text, before := [], b[..];
    assert DecodedSoFar(src, maxSize, i, done) && Written(before, b[..], at, done);
    hide UrlDecoded, DecodedSoFar, Written, Terminated, Escaped, DecodedByte;
    while len < maxSize && i < |src|
      invariant DecodedSoFar(src, maxSize, i, done) && len == |done|
      invariant len <= |UrlDecoded(src, maxSize).text|
      invariant Written(before, b[..], at, done)
      decreases |src| - i
    {
      DecodingStopsAt(src, maxSize, i, done);
      var step, ok := DecodeNext(b, at, src, maxSize, i, done, len, before);
      if !ok {
        WrittenThenTerminated(before, b[..], at, done);
        b[at + len] := NUL;
        return 0;
      }
      done, i, len := done + [DecodedByte(src[i..], true)], i + step, len + 1;
    }
    DecodingStopsAt(src, maxSize, i, done);
    WrittenThenTerminated(before, b[..], at, done);
    b[at + len] := NUL;
  }

  method DecodeStepInto(b: array<byte>, at: nat, src: Text, i: nat) returns (step: nat, ok: bool)
    requires i < |src| && at < b.Length
    modifies b
    ensures ok <==> (src[i] == '%' ==> Escaped(src[i..]))
    ensures ok ==> step == EncodedSize(src[i..]) && b[..] == old(b[..])[at := DecodedByte(src[i..], true)]
    ensures !ok ==> b[..] == old(b[..])
  {
    step, ok := 1, true;
    if src[i] == '+' {
      b[at] := ' ';
    } else if src[i] == '%' {
      step, ok := 3, false;
      if i + 2 < |src| {
        ok := AppendCharFromHex(b, at, src[i + 1], src[i + 2]);
      }
    } else {
      b[at] := src[i];
    }
  }

  /** Every percent sign is followed by two hexadecimal digits. */
  predicate WellFormed(t: Text) {
    t == [] || ((t[0] == '%' ==> Escaped(t)) && WellFormed(t[EncodedSize(t)..]))
  }

  lemma {:induction false} DecodersAgreeWhenWellFormed(t: Text, maxSize: nat)
    requires WellFormed(t)
    ensures UrlDecoded(t, maxSize) == Decoded(Take(PercentDecode(t, true), maxSize), true)
    decreases maxSize
  {
    if maxSize > 0 && t != [] {
      var rest := t[EncodedSize(t)..];
      DecodersAgreeWhenWellFormed(rest, maxSize - 1);
      assert Take(PercentDecode(t, true), maxSize)
          == [DecodedByte(t, true)] + Take(PercentDecode(rest, true), maxSize - 1);
    }
  }

  lemma {:induction false} IncompleteWhenMalformed(t: Text, maxSize: nat)
    requires maxSize >= |t|
    ensures UrlDecoded(t, maxSize).complete <==> WellFormed(t)
    decreases maxSize
  {
    if t != [] && (t[0] == '%' ==> Escaped(t)) {
      IncompleteWhenMalformed(t[EncodedSize(t)..], maxSize - 1);
    }
  }

  lemma {:induction false} DecodedIsShort(t: Text)
    ensures |PercentDecode(t, true)| <= |t|
  {
    if t != [] {
      DecodedIsShort(t[EncodedSize(t)..]);
    }
  }

  /** The two decoders of the server, one for paths and one for parameters, agree on a text
      exactly when it is well formed (section 8.2.1 of RFC 1866). */
  lemma DecodersAgreeExactly(t: Text, maxSize: nat)
    requires maxSize >= |t|
    ensures UrlDecoded(t, maxSize) == Decoded(PercentDecode(t, true), true) <==> WellFormed(t)
  {
    IncompleteWhenMalformed(t, maxSize);
    if WellFormed(t) {
      DecodersAgreeWhenWellFormed(t, maxSize);
      DecodedIsShort(t);
    }
  }

  // ---------- Encoding ----------

  /** Letters, digits and four marks are written as they are. */
  predicate UrlSafe(c: byte) {
    IsDigit(c) || 'a' <= c <= 'z' || 'A' <= c <= 'Z' || c == '-' || c == '_' || c == '.' || c == '~'
  }

  function UrlEncoded(s: Text): Text {
    PercentEncode(s, UrlSafe, false, true)
  }

  lemma {:induction false} EncodedSizeBound(s: Text)
    ensures |s| <= |UrlEncoded(s)| <= 3 * |s|
  {
    if s != [] {
      EncodedSizeBound(s[1..]);
    }
  }

  /** Letters, digits and four marks. */
  predicate IsUnreserved(c: byte) {
    || 48 <= c as int <= 57 || 65 <= c as int <= 90 || 97 <= c as int <= 122
    || c == '-' || c == '_' || c == '.' || c == '~'
  }

  lemma EncodedFirst(c: byte, encoded: Text, rest: Text)
    requires |encoded| >= |rest|
    ensures EncodeByte(c, UrlSafe, false, true) + encoded == [c] + rest <==> IsUnreserved(c) && encoded == rest
  {
    var e := EncodeByte(c, UrlSafe, false, true);
    assert UrlSafe(c) <==> IsUnreserved(c);
    if e + encoded == [c] + rest {
      assert |e| == 1 && e[0] == (e + encoded)[0] == ([c] + rest)[0] == c;
      assert encoded == (e + encoded)[1..] == ([c] + rest)[1..] == rest;
    }
  }

  /** Encoding changes a text exactly when it holds another byte than these. */
  lemma {:induction false} EncodingChangesExactly(s: Text)
    ensures UrlEncoded(s) == s <==> forall c <- s :: IsUnreserved(c)
  {
    if s != [] {
      EncodingChangesExactly(s[1..]);
      EncodedSizeBound(s[1..]);
      assert s == [s[0]] + s[1..] && forall c <- s[1..] :: c in s;
      EncodedFirst(s[0], UrlEncoded(s[1..]), s[1..]);
    }
  }

  lemma {:induction false} EncodedIsWellFormed(s: Text)
    ensures WellFormed(UrlEncoded(s))
  {
    if s != [] {
      EncodedIsWellFormed(s[1..]);
      EncodedByteDecodes(s[0], UrlSafe, false, true, UrlEncoded(s[1..]));
    }
  }

  /** Decoding with any bound returns that many bytes of what was encoded. */
  lemma UrlRoundTrip(s: Text, maxSize: nat)
    ensures UrlDecoded(UrlEncoded(s), maxSize) == Decoded(Take(s, maxSize), true)
  {
    EncodedIsWellFormed(s);
    DecodersAgreeWhenWellFormed(UrlEncoded(s), maxSize);
    DecodeInvertsEncode(s, UrlSafe, false, true);
  }

  lemma {:induction false} EncodedAppend(s: Text, c: byte)
    ensures UrlEncoded(s + [c]) == UrlEncoded(s) + EncodeByte(c, UrlSafe, false, true)
  {
    if s == [] {
      assert UrlEncoded([c][1..]) == [];
    } else {
      EncodedAppend(s[1..], c);
      assert (s + [c])[1..] == s[1..] + [c];
    }
  }

  lemma PrefixFits(s: Text, i: nat)
    requires i < |s|
    ensures |UrlEncoded(s[..i + 1])| <= 3 * |s|
    ensures UrlEncoded(s[..i + 1]) == UrlEncoded(s[..i]) + EncodeByte(s[i], UrlSafe, false, true)
  {
    EncodedSizeBound(s[..i + 1]);
    assert s[..i + 1] == s[..i] + [s[i]];
    EncodedAppend(s[..i], s[i]);
  }

  /** `url_encode`: three bytes per input byte and a terminator are always enough. */
  method UrlEncode(s: Text) returns (b: array<byte>)
    requires NulFree(s)
    ensures fresh(b) && b.Length == 3 * |s| + 1
    ensures |UrlEncoded(s)| < b.Length && b[..|UrlEncoded(s)|] == UrlEncoded(s) && b[|UrlEncoded(s)|] == NUL
  {
    b := new byte[3 * |s| + 1](_ => NUL);
    var i, p := 0, 0;
    while i < |s|
      invariant i <= |s| && p == |UrlEncoded(s[..i])| <= 3 * |s|
      invariant b[..p] == UrlEncoded(s[..i])
    {
      PrefixFits(s, i);
      if UrlSafe(s[i]) {
        b[p] := s[i];
        p := p + 1;
      } else if s[i] == ' ' {
        b[p] := '+';
        p := p + 1;
      } else {
        b[p], b[p + 1], b[p + 2] := '%', HexDigit(Code(s[i]) / 16, false), HexDigit(Code(s[i]) % 16, false);
        p := p + 3;
      }
      i := i + 1;
    }
    assert s[..i] == s;
    EncodedSizeBound(s);
    b[p] := NUL;
  }

  // ---------- From a posted parameter to the status document ----------

  /** What the status shows for a stored key or value: decoded, XML-encoded, cut off at twice its
      stored length. */
  function StatusText(stored: Text): Text {
    Take(XmlText(CString(UrlDecoded(stored, |stored|).text)), 2 * |stored|)
  }

  lemma {:induction false} DecodedFits(src: Text, maxSize: nat)
    ensures |UrlDecoded(src, maxSize).text| <= maxSize
    decreases maxSize
  {
    if maxSize > 0 && src != [] && (src[0] == '%' ==> Escaped(src)) {
      DecodedFits(src[EncodedSize(src)..], maxSize - 1);
    }
  }

  method ReadCString(b: array<byte>, p: nat, ghost t: Text) returns (s: Text)
    requires IsString(b[..], p, t)
    ensures s == t
  {
    s := [];
    while b[p + |s|] != NUL
      invariant |s| <= |t| && s == t[..|s|]
      decreases |t| - |s|
    {
      assert b[..][p + |s|] == t[|s|];
      s := s + [b[p + |s|]];
    }
    assert b[..][p + |s|] == NUL;
  }

  /** Decodes into a buffer of its own; what counts is the C string in it. */
  method DecodeStored(src: Text) returns (text: Text)
    requires NulFree(src)
    ensures text == CString(UrlDecoded(src, |src|).text)
  {
    DecodedFits(src, |src|);
    var decoded := new byte[|src| + 1](_ => NUL);
    var len := UrlDecodeInto(decoded, 0, src, |src|);
    ghost var left := UrlDecoded(src, |src|).text;
    DecodedString(decoded[..], 0, |left|);
    text := ReadCString(decoded, 0, CString(left));
  }

  /** `url_decode_xml_encode`. */
  method UrlDecodeXmlEncode(dst: array<byte>, src: Text)
    requires NulFree(src) && 2 * |src| < dst.Length
    modifies dst
    ensures dst[..|StatusText(src)|] == StatusText(src) && dst[|StatusText(src)|] == NUL
  {
    var text := DecodeStored(src);
    XmlEncode(dst, 0, text, 2 * |src|);
  }

  lemma {:induction false} XmlFitsTwice(s: Text)
    ensures |XmlText(s)| <= 2 * |UrlEncoded(s)|
  {
    if s != [] {
      XmlFitsTwice(s[1..]);
    }
  }

  /** The cut never loses anything of a parameter that was URL-encoded: its XML text is complete
      and stands for the original bytes. */
  lemma EncodedParameterIsShownWhole(s: Text)
    requires NulFree(s)
    ensures StatusText(UrlEncoded(s)) == XmlText(s)
    ensures XmlUnescape(StatusText(UrlEncoded(s))) == s
  {
    EncodedSizeBound(s);
    UrlRoundTrip(s, |UrlEncoded(s)|);
    assert Take(s, |UrlEncoded(s)|) == s;
    NulFreeIsWhole(s);
    XmlFitsTwice(s);
    XmlRoundTrip(s);
  }

  lemma {:induction false} XmlTextIsNulFree(s: Text)
    requires NulFree(s)
    ensures NulFree(XmlText(s))
  {
    if s != [] {
      assert s[0] in s && forall c <- s[1..] :: c in s;
      XmlTextIsNulFree(s[1..]);
    }
  }

  lemma StatusTextIsString(stored: Text)
    ensures NulFree(StatusText(stored))
  {
    var full := XmlText(CString(UrlDecoded(stored, |stored|).text));
    XmlTextIsNulFree(CString(UrlDecoded(stored, |stored|).text));
    assert forall c <- StatusText(stored) :: c in full;
  }

  /** A stored string that is not URL-encoded is cut off when its XML encoding is more than twice as
      long. */
  lemma PlainTextIsShownExactly(t: Text)
    requires NulFree(t) && '%' !in t && '+' !in t
    ensures StatusText(t) == if |XmlText(t)| <= 2 * |t| then XmlText(t) else XmlText(t)[..2 * |t|]
    ensures StatusText(t) == XmlText(t) <==> |XmlText(t)| <= 2 * |t|
  {
    assert forall i: nat :: !EscapeAt(t, i);
    DecodingChangesExactly(t, true);
    PlainIsWellFormed(t);
    DecodersAgreeWhenWellFormed(t, |t|);
    NulFreeIsWhole(t);
  }

  lemma {:induction false} PlainIsWellFormed(t: Text)
    requires '%' !in t
    ensures WellFormed(t)
  {
    if t != [] {
      assert t[0] != '%' && '%' !in t[1..];
      PlainIsWellFormed(t[1..]);
    }
  }
}
