/** The string codecs of the DIAL server: bounded copies, URL encoding, XML encoding. */
module UrlLib {
  import opened Bytes

  /** `smartstrcat`: appends at most `maxChars` bytes of the C string `src` and terminates the
      result; returns where it ends. */
  method SmartStrCat(b: array<byte>, at: nat, src: Text, maxChars: nat) returns (end: nat)
    requires NulFree(src) && at + Min(|src|, maxChars) < b.Length
    modifies b
    ensures end == at + Min(|src|, maxChars) && b[end] == NUL
    ensures b[at..end] == src[..end - at]
    ensures OnlyWithin(old(b[..]), b[..], at, end)
  {
    var copied, dest := 0, at;
    while true
      invariant copied <= maxChars && copied <= |src| && dest == at + copied
      invariant forall k :: at <= k < dest ==> b[k] == src[k - at]
      invariant OnlyWithin(old(b[..]), b[..], at, dest - 1)
      decreases |src| - copied
    {
      // One byte is stored before either bound is looked at, the terminator of `src` included.
      b[dest] := if copied < |src| then src[copied] else NUL;
      dest := dest + 1;
      if copied >= |src| || copied >= maxChars {
        break;
      }
      copied := copied + 1;
    }
    dest := dest - 1;
    b[dest] := NUL;
    end := dest;
    SliceIs(b[..], at, end, src);
    assert b[..][at..end] == b[at..end];
  }

  lemma SliceIs(b: Text, at: nat, end: nat, src: Text)
    requires at <= end <= |b| && end - at <= |src|
    requires forall k :: at <= k < end ==> b[k] == src[k - at]
    ensures b[at..end] == src[..end - at]
  {
  }

  // ---------- XML ----------

  const AMP: Text := ['&', 'a', 'm', 'p', ';']
  const QUOT: Text := ['&', 'q', 'u', 'o', 't', ';']
  const APOS: Text := ['&', 'a', 'p', 'o', 's', ';']
  const LT: Text := ['&', 'l', 't', ';']
  const GT: Text := ['&', 'g', 't', ';']

  predicate NeedsEntity(c: byte) {
    c == '&' || c == '\"' || c == '\'' || c == '<' || c == '>'
  }

  /** What one byte is written as; the predefined entities of section 4.6 of XML 1.0. */
  function XmlByte(c: byte): (e: Text)
    ensures 1 <= |e| <= 6
  {
    if c == '&' then AMP
    else if c == '\"' then QUOT
    else if c == '\'' then APOS
    else if c == '<' then LT
    else if c == '>' then GT
    else [c]
  }

  function XmlText(s: Text): Text {
    if s == [] then [] else XmlByte(s[0]) + XmlText(s[1..])
  }

  /** The reader's side: which byte an entity or a plain byte stands for. */
  function XmlUnescape(t: Text): Text {
    if t == [] then []
    else if "&amp;" <= t then ['&'] + XmlUnescape(t[5..])
    else if "&quot;" <= t then ['\"'] + XmlUnescape(t[6..])
    else if "&apos;" <= t then ['\''] + XmlUnescape(t[6..])
    else if "&lt;" <= t then ['<'] + XmlUnescape(t[4..])
    else if "&gt;" <= t then ['>'] + XmlUnescape(t[4..])
    else [t[0]] + XmlUnescape(t[1..])
  }

  lemma XmlByteUnescapes(c: byte, rest: Text)
    ensures XmlUnescape(XmlByte(c) + rest) == [c] + XmlUnescape(rest)
  {
    var e := XmlByte(c);
    var t := e + rest;
    assert t[|e|..] == rest;
    if NeedsEntity(c) {
      assert e <= t && t[1] == e[1] && t[2] == e[2];
    } else {
      assert t[0] == c;
    }
  }

  lemma {:induction false} XmlRoundTrip(s: Text)
    ensures XmlUnescape(XmlText(s)) == s
  {
    if s != [] {
      XmlRoundTrip(s[1..]);
      XmlByteUnescapes(s[0], XmlText(s[1..]));
    }
  }

  lemma {:induction false} XmlTextHasNoMarkup(s: Text)
    ensures forall c <- XmlText(s) :: c != '<' && c != '>' && c != '\"' && c != '\''
  {
    if s != [] {
      XmlTextHasNoMarkup(s[1..]);
      assert forall c <- XmlByte(s[0]) :: c != '<' && c != '>' && c != '\"' && c != '\'';
    }
  }

  lemma {:induction false} XmlTextAppend(s: Text, c: byte)
    ensures XmlText(s + [c]) == XmlText(s) + XmlByte(c)
  {
    if s != [] {
      XmlTextAppend(s[1..], c);
      assert (s + [c])[1..] == s[1..] + [c];
    } else {
      assert XmlText([c][1..]) == [];
    }
  }

  lemma {:induction false} XmlTextSplit(s: Text, t: Text)
    ensures XmlText(s + t) == XmlText(s) + XmlText(t)
  {
    if s != [] {
      XmlTextSplit(s[1..], t);
      assert (s + t)[1..] == s[1..] + t;
    } else {
      assert s + t == t;
    }
  }

  /** `written` bytes of the encoding of `src` stand at `at`, of `size` that were counted. */
  ghost predicate XmlWriting(b: Text, at: nat, src: Text, i: nat, size: nat, maxSize: nat, dst: nat) {
    && i <= |src| && size == |XmlText(src[..i])|
    && dst == at + Min(size, maxSize) && dst < |b|
    && forall k :: at <= k < dst ==> b[k] == XmlText(src[..i])[k - at]
  }

  /** `xmlencode`: the first `maxSize` bytes of the encoding, and a terminator. `size` counts an
      entity in full even when `SmartStrCat` cut it off. */
  method XmlEncode(b: array<byte>, at: nat, src: Text, maxSize: nat)
    requires NulFree(src) && at + Min(|XmlText(src)|, maxSize) < b.Length
    modifies b
    ensures var n := Min(|XmlText(src)|, maxSize);
            b[at..at + n] == XmlText(src)[..n] && b[at + n] == NUL
    ensures OnlyWithin(old(b[..]), b[..], at, at + Min(|XmlText(src)|, maxSize))
  {
    var i: nat, size: nat, dst: nat := 0, 0, at;
    assert XmlWriting(b[..], at, src, i, size, maxSize, dst);
    hide XmlText, XmlWriting;
    while i < |src| && size < maxSize
      invariant XmlWriting(b[..], at, src, i, size, maxSize, dst)
      invariant OnlyWithin(old(b[..]), b[..], at, at + Min(|XmlText(src)|, maxSize))
    {
      ghost var before := b[..];
      dst := AppendFitting(b, at, src, i, size, maxSize, dst);
      OnlyWithinTwice(old(b[..]), before, b[..], at, at + Min(|XmlText(src)|, maxSize));
      size := size + |XmlByte(src[i])|;
      i := i + 1;
    }
    XmlWritten(b[..], at, src, i, size, maxSize, dst);
    b[dst] := NUL;
  }

  /** One round; what it writes stays inside the part of the encoding that fits. */
  method AppendFitting(b: array<byte>, at: nat, src: Text, i: nat, size: nat, maxSize: nat, dst: nat)
    returns (dst': nat)
    requires NulFree(src) && i < |src| && size < maxSize && XmlWriting(b[..], at, src, i, size, maxSize, dst)
    requires at + Min(|XmlText(src)|, maxSize) < b.Length
    modifies b
    ensures XmlWriting(b[..], at, src, i + 1, size + |XmlByte(src[i])|, maxSize, dst')
    ensures OnlyWithin(old(b[..]), b[..], at, at + Min(|XmlText(src)|, maxSize))
  {
    OneMoreByteFits(src, i, size, maxSize);
    dst' := AppendXmlByte(b, at, src, i, size, maxSize, dst);
  }

  lemma XmlWritten(b: Text, at: nat, src: Text, i: nat, size: nat, maxSize: nat, dst: nat)
    requires XmlWriting(b, at, src, i, size, maxSize, dst) && (i == |src| || size >= maxSize)
    ensures dst == at + Min(|XmlText(src)|, maxSize) && b[at..dst] == XmlText(src)[..dst - at]
  {
    PrefixEncodes(src, i, size, maxSize);
    assert b[at..dst] == XmlText(src[..i])[..dst - at];
  }

  /** When the loop stops, it has written what fits. */
  lemma PrefixEncodes(src: Text, i: nat, size: nat, maxSize: nat)
    requires i <= |src| && size == |XmlText(src[..i])|
    ensures size <= |XmlText(src)| && XmlText(src)[..size] == XmlText(src[..i])
    ensures i == |src| || size >= maxSize ==> Min(size, maxSize) == Min(|XmlText(src)|, maxSize)
  {
    assert src == src[..i] + src[i..];
    XmlTextSplit(src[..i], src[i..]);
  }

  lemma OneMoreByteFits(src: Text, i: nat, size: nat, maxSize: nat)
    requires i < |src| && size == |XmlText(src[..i])| && size < maxSize
    ensures size + Min(|XmlByte(src[i])|, maxSize - size) <= Min(|XmlText(src)|, maxSize)
  {
    assert src[..i + 1] == src[..i] + [src[i]];
    XmlTextAppend(src[..i], src[i]);
    PrefixEncodes(src, i + 1, size + |XmlByte(src[i])|, maxSize);
  }

  /** Adding the encoding of one byte, cut off at `maxSize`. */
  lemma XmlWritingStep(b: Text, c: Text, at: nat, src: Text, i: nat, size: nat, maxSize: nat, dst: nat, dst': nat)
    requires i < |src| && size < maxSize && XmlWriting(b, at, src, i, size, maxSize, dst)
    requires dst' == dst + Min(|XmlByte(src[i])|, maxSize - size) && dst' < |c| && |b| == |c|
    requires forall k :: at <= k < dst ==> c[k] == b[k]
    requires forall k :: dst <= k < dst' ==> c[k] == XmlByte(src[i])[k - dst]
    ensures XmlWriting(c, at, src, i + 1, size + |XmlByte(src[i])|, maxSize, dst')
  {
    assert src[..i + 1] == src[..i] + [src[i]];
    XmlTextAppend(src[..i], src[i]);
  }

  method AppendXmlByte(b: array<byte>, at: nat, src: Text, i: nat, size: nat, maxSize: nat, dst: nat)
    returns (dst': nat)
    requires NulFree(src) && i < |src| && size < maxSize && XmlWriting(b[..], at, src, i, size, maxSize, dst)
    requires dst + Min(|XmlByte(src[i])|, maxSize - size) < b.Length
    modifies b
    ensures XmlWriting(b[..], at, src, i + 1, size + |XmlByte(src[i])|, maxSize, dst')
    ensures OnlyWithin(old(b[..]), b[..], dst, dst + Min(|XmlByte(src[i])|, maxSize - size))
  {
    ghost var before := b[..];
    if NeedsEntity(src[i]) {
      dst' := SmartStrCat(b, dst, XmlByte(src[i]), maxSize - size);
      assert forall k :: dst <= k < dst' ==> b[k] == b[dst..dst'][k - dst];
    } else {
      assert src[i] in src;
      b[dst] := src[i];
      dst' := dst + 1;
    }
    XmlWritingStep(before, b[..], at, src, i, size, maxSize, dst, dst');
  }

  // ---------- The application name of a URI ----------

  const UNKNOWN: Text := ['u', 'n', 'k', 'n', 'o', 'w', 'n']

  /** Index of the last slash before `n`, or -1 (`strrchr`). */
  function LastSlash(uri: Text, n: nat): (i: int)
    requires n <= |uri|
    ensures -1 <= i < n
  {
    if n == 0 then -1 else if uri[n - 1] == '/' then n - 1 else LastSlash(uri, n - 1)
  }

  /** The segment before the last slash. Without a slash in front of it, its first byte is lost:
      the search stops at the first byte of the URI and then steps over it. */
  function AppNameOf(uri: Text): Text {
    var slash := LastSlash(uri, |uri|);
    if slash <= 0 then UNKNOWN else uri[Max(0, LastSlash(uri, slash)) + 1..slash]
  }

  /** `parse_app_name`. */
  method ParseAppName(uri: Text) returns (name: Text)
    ensures name == AppNameOf(uri)
  {
    var slash := |uri| - 1;
    while slash >= 0 && uri[slash] != '/'
      invariant -1 <= slash < |uri| && LastSlash(uri, |uri|) == LastSlash(uri, slash + 1)
    {
      slash := slash - 1;
    }
    if slash <= 0 {
      return UNKNOWN;
    }
    var begin := slash - 1;
    while begin != 0 && uri[begin] != '/'
      invariant 0 <= begin < slash && LastSlash(uri, slash) == LastSlash(uri, begin + 1)
    {
      begin := begin - 1;
    }
    assert LastSlash(uri, begin) < begin;
    name := uri[begin + 1..slash];
  }

  lemma {:induction false} LastSlashIs(uri: Text, n: nat, i: nat)
    requires i < n <= |uri| && uri[i] == '/' && forall j :: i < j < n ==> uri[j] != '/'
    ensures LastSlash(uri, n) == i
  {
    if i < n - 1 {
      LastSlashIs(uri, n - 1, i);
    }
  }

  /** The name is recovered from every URI of the documented form. */
  lemma AppNameRecovered(prefix: Text, name: Text, suffix: Text)
    requires '/' !in name && '/' !in suffix
    ensures AppNameOf(prefix + ['/'] + name + ['/'] + suffix) == name
  {
    var uri := prefix + ['/'] + name + ['/'] + suffix;
    var first, last := |prefix|, |prefix| + 1 + |name|;
    assert forall j :: first < j < last ==> uri[j] == name[j - first - 1] && uri[j] in name;
    assert forall j :: last < j < |uri| ==> uri[j] == suffix[j - last - 1] && uri[j] in suffix;
    LastSlashIs(uri, |uri|, last);
    LastSlashIs(uri, last, first);
    assert uri[first + 1..last] == name;
  }

  /** What stands between the last slash and the slash before it, or the start of the URI. */
  function SegmentBeforeLastSlash(uri: Text): Text
    requires '/' in uri
  {
    var slash := LastSlash(uri, |uri|);
    if slash < 0 then [] else uri[LastSlash(uri, slash) + 1..slash]
  }

  lemma {:induction false} LastSlashStops(uri: Text, n: nat)
    requires n <= |uri|
    ensures LastSlash(uri, n) >= 0 ==> uri[LastSlash(uri, n)] == '/'
    ensures forall j :: LastSlash(uri, n) < j < n ==> uri[j] != '/'
  {
    if n > 0 && uri[n - 1] != '/' {
      LastSlashStops(uri, n - 1);
    }
  }

  ghost predicate HasTwoSlashes(uri: Text) {
    exists i, j :: 0 <= i < j < |uri| && uri[i] == '/' && uri[j] == '/'
  }

  /** Without a slash behind the first byte there is no name. */
  lemma NoNameIsUnknown(uri: Text)
    requires forall i :: 0 < i < |uri| ==> uri[i] != '/'
    ensures AppNameOf(uri) == "unknown"
  {
    LastSlashStops(uri, |uri|);
  }

  lemma TwoSlashesAreFound(uri: Text)
    requires '/' in uri
    ensures LastSlash(uri, |uri|) >= 0
    ensures HasTwoSlashes(uri) <==> LastSlash(uri, LastSlash(uri, |uri|)) >= 0
  {
    LastSlashStops(uri, |uri|);
    var last := LastSlash(uri, |uri|);
    LastSlashStops(uri, last);
    if LastSlash(uri, last) >= 0 {
      assert uri[LastSlash(uri, last)] == '/' && uri[last] == '/';
    }
  }

  lemma NameIsSegment(uri: Text)
    requires '/' in uri && LastSlash(uri, |uri|) >= 0 && LastSlash(uri, LastSlash(uri, |uri|)) >= 0
    ensures AppNameOf(uri) == SegmentBeforeLastSlash(uri)
  {
  }

  lemma NameIsShorter(uri: Text)
    requires '/' in uri && LastSlash(uri, |uri|) >= 0 && LastSlash(uri, LastSlash(uri, |uri|)) < 0
    ensures |AppNameOf(uri)| != |SegmentBeforeLastSlash(uri)|
  {
  }

  /** The name is the segment before the last slash if and only if there is a slash in front of it
      as well. */
  lemma AppNameIsSegmentExactly(uri: Text)
    requires '/' in uri
    ensures AppNameOf(uri) == SegmentBeforeLastSlash(uri) <==> HasTwoSlashes(uri)
  {
    TwoSlashesAreFound(uri);
    if LastSlash(uri, LastSlash(uri, |uri|)) >= 0 {
      NameIsSegment(uri);
    } else {
      NameIsShorter(uri);
    }
  }

  /** Without a slash in front the first byte of the name is lost. */
  lemma FirstByteIsLost(c: byte, name: Text, suffix: Text)
    requires c != '/' && '/' !in name && '/' !in suffix
    ensures AppNameOf([c] + name + ['/'] + suffix) == name
  {
    var uri, last := [c] + name + ['/'] + suffix, 1 + |name|;
    assert forall j :: 0 < j < last ==> uri[j] == name[j - 1] && uri[j] in name;
    assert forall j :: last < j < |uri| ==> uri[j] == suffix[j - last - 1] && uri[j] in suffix;
    LastSlashIs(uri, |uri|, last);
    LastSlashStops(uri, last);
    assert uri[1..last] == name;
  }
}
