/** What the HTTP server does to the path of a request before it hands it to the application:
    percent-decoding and removal of double dots, both inside the request buffer. */
module UriPath {
  import opened Bytes
  import opened Tokenizer

  // ---------- Percent decoding ----------

  /** A percent sign with two hexadecimal digits starts `t`. */
  predicate Escaped(t: Text) {
    |t| >= 3 && t[0] == '%' && IsHex(t[1]) && IsHex(t[2])
  }

  /** The first decoded byte, and how many bytes of `t` it took. */
  function DecodedByte(t: Text, form: bool): byte
    requires t != []
  {
    if Escaped(t) then FromHexPair(t[1], t[2])
    else if form && t[0] == '+' then ' '
    else t[0]
  }

  function EncodedSize(t: Text): (n: nat)
    requires t != []
    ensures 1 <= n <= |t|
  {
    if Escaped(t) then 3 else 1
  }

  function PercentDecode(t: Text, form: bool): Text {
    if t == [] then [] else [DecodedByte(t, form)] + PercentDecode(t[EncodedSize(t)..], form)
  }

  /** `tolower`, and the macro HEXTOI of the source. */
  function ToLower(c: byte): byte {
    if 'A' <= c <= 'Z' then (Code(c) + 32) as char else c
  }

  function HexToI(x: byte): int {
    if IsDigit(x) then Code(x) - Code('0') else Code(x) - Code('W')
  }

  lemma HexToIIsHexValue(c: byte)
    requires IsHex(c)
    ensures HexToI(ToLower(c)) == HexValue(c)
  {
  }

  /** `done` is written up to `j`; from `i` on the buffer still holds the text. */
  ghost predicate Decoding(b: Text, p: nat, t: Text, form: bool, done: Text, j: nat, i: nat) {
    && j <= i <= |t| && |done| == j && p + |t| < |b| && b[p + |t|] == NUL
    && (forall k :: p <= k < p + j ==> b[k] == done[k - p])
    && (forall k :: p + i <= k < p + |t| ==> b[k] == t[k - p] && b[k] != NUL)
    && PercentDecode(t, form) == done + PercentDecode(t[i..], form)
  }

  lemma DecodingStep(b: Text, c: Text, p: nat, t: Text, form: bool, done: Text, j: nat, i: nat)
    requires Decoding(b, p, t, form, done, j, i) && i < |t|
    requires c == b[p + j := DecodedByte(t[i..], form)]
    ensures Decoding(c, p, t, form, done + [DecodedByte(t[i..], form)], j + 1, i + EncodedSize(t[i..]))
  {
    var step := EncodedSize(t[i..]);
    assert t[i..][step..] == t[i + step..];
    assert done + ([DecodedByte(t[i..], form)] + PercentDecode(t[i + step..], form))
        == done + [DecodedByte(t[i..], form)] + PercentDecode(t[i + step..], form);
  }

  lemma DecodingBegins(b: Text, p: nat, t: Text, form: bool)
    requires IsString(b, p, t)
    ensures Decoding(b, p, t, form, [], 0, 0)
  {
    assert t[0..] == t;
  }

  lemma DecodingDone(b: Text, c: Text, p: nat, t: Text, form: bool, done: Text, j: nat, i: nat)
    requires Decoding(b, p, t, form, done, j, i) && b[p + i] == NUL && c == b[p + j := NUL]
    ensures c[p..p + j] == PercentDecode(t, form)
  {
    assert t[i..] == [] && done + [] == done;
  }

  /** `url_decode` with source and destination the same: the write index never passes the read
      index, so that every byte is read before it is overwritten. */
  method UrlDecode(b: array<byte>, p: nat, form: bool, ghost t: Text) returns (len: nat)
    requires IsString(b[..], p, t)
    modifies b
    ensures len <= |t| && b[p..p + len] == PercentDecode(t, form) && b[p + len] == NUL
    ensures forall k :: 0 <= k < p || p + |t| < k < b.Length ==> b[k] == old(b[k])
  {
    var i, j := 0, 0;
    ghost var done: Text := [];
    DecodingBegins(b[..], p, t, form);
    while b[p + i] != NUL
      invariant Decoding(b[..], p, t, form, done, j, i)
      invariant forall k :: 0 <= k < p || p + |t| < k < b.Length ==> b[k] == old(b[k])
      decreases |t| - i
    {
      var step := DecodeRound(b, p, i, j, form, t, done);
      done, i, j := done + [DecodedByte(t[i..], form)], i + step, j + 1;
    }
    ghost var before := b[..];
    assert before[p + i] == NUL;
    b[p + j] := NUL;
    DecodingDone(before, b[..], p, t, form, done, j, i);
    len := j;
  }

  method DecodeRound(b: array<byte>, p: nat, i: nat, j: nat, form: bool, ghost t: Text, ghost done: Text)
    returns (step: nat)
    requires Decoding(b[..], p, t, form, done, j, i) && b[p + i] != NUL
    modifies b
    ensures i < |t| && step == EncodedSize(t[i..])
    ensures Decoding(b[..], p, t, form, done + [DecodedByte(t[i..], form)], j + 1, i + step)
    ensures OnlyWithin(old(b[..]), b[..], p + j, p + j)
  {
    ghost var before := b[..];
    assert before[p + i] != NUL;
    step := DecodeStep(b, p, i, j, form, t);
    DecodingStep(before, b[..], p, t, form, done, j, i);
  }

  /** One round: the byte at `i` is decoded into `j`. */
  method DecodeStep(b: array<byte>, p: nat, i: nat, j: nat, form: bool, ghost t: Text) returns (step: nat)
    requires j <= i < |t| && p + |t| < b.Length && b[p + |t|] == NUL
    requires forall k :: p + i <= k < p + |t| ==> b[k] == t[k - p] && b[k] != NUL
    modifies b
    ensures step == EncodedSize(t[i..])
    ensures b[..] == old(b[..])[p + j := DecodedByte(t[i..], form)]
  {
    step := 1;
    if b[p + i] == '%' && IsHex(b[p + i + 1]) && IsHex(b[p + i + 2]) {
      var hi, lo := ToLower(b[p + i + 1]), ToLower(b[p + i + 2]);
      HexToIIsHexValue(b[p + i + 1]);
      HexToIIsHexValue(b[p + i + 2]);
      b[p + j] := (16 * HexToI(hi) + HexToI(lo)) as char;
      step := 3;
    } else if form && b[p + i] == '+' {
      b[p + j] := ' ';
    } else {
      b[p + j] := b[p + i];
    }
  }

  /** Section 2.1 of RFC 3986: a byte is written as itself or as a percent sign and two digits of
      either case; with `form`, a space is written as a plus sign. */
  function Escape(c: byte, upper: bool): Text {
    ['%', HexDigit(Code(c) / 16, upper), HexDigit(Code(c) % 16, upper)]
  }

  function EncodeByte(c: byte, keep: byte -> bool, upper: bool, form: bool): Text {
    if form && c == ' ' then ['+'] else if keep(c) then [c] else Escape(c, upper)
  }

  function PercentEncode(s: Text, keep: byte -> bool, upper: bool, form: bool): Text {
    if s == [] then [] else EncodeByte(s[0], keep, upper, form) + PercentEncode(s[1..], keep, upper, form)
  }

  lemma EncodedByteDecodes(c: byte, keep: byte -> bool, upper: bool, form: bool, rest: Text)
    requires !keep('%') && (form ==> !keep('+'))
    ensures var t := EncodeByte(c, keep, upper, form) + rest;
            DecodedByte(t, form) == c && t[EncodedSize(t)..] == rest
  {
  }

  lemma {:induction false} DecodeInvertsEncode(s: Text, keep: byte -> bool, upper: bool, form: bool)
    requires !keep('%') && (form ==> !keep('+'))
    ensures PercentDecode(PercentEncode(s, keep, upper, form), form) == s
  {
    if s != [] {
      DecodeInvertsEncode(s[1..], keep, upper, form);
      EncodedByteDecodes(s[0], keep, upper, form, PercentEncode(s[1..], keep, upper, form));
    }
  }

  /** A percent sign and two hexadecimal digits at `i`. */
  predicate EscapeAt(t: Text, i: nat) {
    i + 2 < |t| && t[i] == '%' && IsHexDigit(t[i + 1]) && IsHexDigit(t[i + 2])
  }

  predicate IsHexDigit(c: byte) {
    48 <= c as int <= 57 || 65 <= c as int <= 70 || 97 <= c as int <= 102
  }

  lemma {:induction false} DecodedSize(t: Text, form: bool)
    ensures |PercentDecode(t, form)| <= |t|
  {
    if t != [] {
      DecodedSize(t[EncodedSize(t)..], form);
    }
  }

  /** Decoding changes a text exactly when it holds an escape, or a plus sign in a form. Other percent
      signs stand for themselves. */
  lemma {:induction false} DecodingChangesExactly(t: Text, form: bool)
    ensures PercentDecode(t, form) == t <==> (forall i: nat :: !EscapeAt(t, i)) && (form ==> '+' !in t)
  {
    if t != [] {
      assert EscapeAt(t, 0) <==> Escaped(t);
      if Escaped(t) {
        DecodedSize(t[3..], form);
      } else {
        DecodingChangesExactly(t[1..], form);
        assert t == [t[0]] + t[1..];
        assert forall i: nat :: EscapeAt(t[1..], i) <==> EscapeAt(t, i + 1);
        assert forall i: nat :: EscapeAt(t, i) && i > 0 ==> EscapeAt(t[1..], i - 1);
      }
    }
  }

  /** What an encoded text is made of. */
  lemma {:induction false} EncodedBytes(s: Text, keep: byte -> bool, upper: bool, form: bool)
    ensures forall c <- PercentEncode(s, keep, upper, form) :: keep(c) || IsHex(c) || c == '%' || (form && c == '+')
    ensures |s| <= |PercentEncode(s, keep, upper, form)|
  {
    if s != [] {
      EncodedBytes(s[1..], keep, upper, form);
    }
  }

  lemma {:induction false} SafeTextIsItself(s: Text, keep: byte -> bool, upper: bool)
    requires forall c <- s :: keep(c)
    ensures PercentEncode(s, keep, upper, false) == s
  {
    if s != [] {
      assert s[0] in s && forall c <- s[1..] :: c in s;
      SafeTextIsItself(s[1..], keep, upper);
    }
  }

  // ---------- Path cleaning ----------

  predicate IsSeparator(c: byte) { c == '/' || c == '\\' }

  function DropSeparators(t: Text): (r: Text)
    ensures |r| <= |t|
  {
    if t != [] && IsSeparator(t[0]) then DropSeparators(t[1..]) else t
  }

  function DropDots(t: Text): (r: Text)
    ensures |r| <= |t|
  {
    if |t| >= 2 && t[0] == '.' && t[1] == '.' then DropDots(t[2..]) else t
  }

  /** What is looked at next after the first byte was copied. */
  function AfterFirst(t: Text): (r: Text)
    requires t != []
    ensures |r| < |t|
  {
    if IsSeparator(t[0]) then DropDots(DropSeparators(t[1..])) else t[1..]
  }

  function CleanPath(t: Text): Text
    decreases |t|
  {
    if t == [] then [] else [t[0]] + CleanPath(AfterFirst(t))
  }

  /** Two pointers into one buffer: `done` is written before `w`, `rest` is still to read at `s`. */
  ghost predicate Cleaning(b: Text, p: nat, t: Text, done: Text, w: nat, rest: Text, s: nat) {
    && w == p + |done| && w <= s && s + |rest| == p + |t|
    && IsString(b, s, rest)
    && (forall k :: p <= k < w ==> k < |b| && b[k] == done[k - p] && b[k] != NUL)
    && CleanPath(t) == done + CleanPath(rest)
  }

  lemma CleaningStep(b: Text, c: Text, p: nat, t: Text, done: Text, w: nat, rest: Text, s: nat, next: nat)
    requires Cleaning(b, p, t, done, w, rest, s) && rest != []
    requires c == b[w := rest[0]]
    requires s < next && next + |AfterFirst(rest)| == s + |rest| && IsString(c, next, AfterFirst(rest))
    ensures Cleaning(c, p, t, done + [rest[0]], w + 1, AfterFirst(rest), next)
  {
    assert done + ([rest[0]] + CleanPath(AfterFirst(rest))) == done + [rest[0]] + CleanPath(AfterFirst(rest));
    assert b[s] == rest[0];
  }

  /** `remove_double_dots_and_double_slashes`. */
  method RemoveDoubleDots(b: array<byte>, p: nat, ghost t: Text)
    requires IsString(b[..], p, t)
    modifies b
    ensures |CleanPath(t)| <= |t| && IsString(b[..], p, CleanPath(t))
    ensures forall k :: 0 <= k < p || p + |t| < k < b.Length ==> b[k] == old(b[k])
  {
    var s, w := p, p;
    ghost var rest, done: Text := t, [];
    while b[s] != NUL
      invariant Cleaning(b[..], p, t, done, w, rest, s)
      invariant forall k :: 0 <= k < p || p + |t| < k < b.Length ==> b[k] == old(b[k])
      decreases |rest|
    {
      assert rest != [] && b[..][s] == rest[0];
      ghost var before, at, from := b[..], w, s;
      s, w := CopyByte(b, s, w, rest);
      CleaningStep(before, b[..], p, t, done, at, rest, from, s);
      done, rest := done + [rest[0]], AfterFirst(rest);
    }
    assert b[..][s] == NUL;
    assert CleanPath(t) == done;
    b[w] := NUL;
  }

  /** One round: copies a byte and, behind a separator, skips what is not to be copied. */
  method CopyByte(b: array<byte>, s: nat, w: nat, ghost t: Text) returns (s': nat, w': nat)
    requires IsString(b[..], s, t) && t != [] && w <= s
    modifies b
    ensures w' == w + 1 && s < s' && s' + |AfterFirst(t)| == s + |t|
    ensures b[..] == old(b[..])[w := t[0]] && IsString(b[..], s', AfterFirst(t))
  {
    assert b[..][s] == t[0];
    SuffixIsString(b[..], s, t, 1);
    b[w] := b[s];
    s', w' := s + 1, w + 1;
    if IsSeparator(b[s' - 1]) {
      s' := SkipSeparators(b, s', t[1..]);
      s' := SkipDots(b, s', DropSeparators(t[1..]));
    }
  }

  method SkipSeparators(b: array<byte>, p: nat, ghost t: Text) returns (s: nat)
    requires IsString(b[..], p, t)
    ensures p <= s && s + |DropSeparators(t)| == p + |t| && IsString(b[..], s, DropSeparators(t))
  {
    s := p;
    ghost var rest := t;
    while IsSeparator(b[s])
      invariant p <= s && s + |rest| == p + |t| && IsString(b[..], s, rest)
      invariant DropSeparators(rest) == DropSeparators(t)
      decreases |rest|
    {
      assert rest != [] && b[..][s] == rest[0];
      SuffixIsString(b[..], s, rest, 1);
      rest, s := rest[1..], s + 1;
    }
    assert rest != [] ==> b[..][s] == rest[0];
  }

  method SkipDots(b: array<byte>, p: nat, ghost t: Text) returns (s: nat)
    requires IsString(b[..], p, t)
    ensures p <= s && s + |DropDots(t)| == p + |t| && IsString(b[..], s, DropDots(t))
  {
    s := p;
    ghost var rest := t;
    while b[s] == '.' && b[s + 1] == '.'
      invariant p <= s && s + |rest| == p + |t| && IsString(b[..], s, rest)
      invariant DropDots(rest) == DropDots(t)
      decreases |rest|
    {
      assert rest != [] && b[..][s] == rest[0];
      assert |rest| > 1 && b[..][s + 1] == rest[1];
      SuffixIsString(b[..], s, rest, 2);
      rest, s := rest[2..], s + 2;
    }
    assert |rest| >= 2 ==> b[..][s] == rest[0] && b[..][s + 1] == rest[1];
  }

  // ---------- What path cleaning guarantees ----------

  /** `s` is `t` with some bytes left out. */
  ghost predicate Subsequence(s: Text, t: Text) {
    s == [] || (t != [] && ((s[0] == t[0] && Subsequence(s[1..], t[1..])) || Subsequence(s, t[1..])))
  }

  lemma {:induction false} SubsequenceOfMore(s: Text, t: Text, n: nat)
    requires n <= |t| && Subsequence(s, t[n..])
    ensures Subsequence(s, t)
  {
    if n > 0 {
      assert t[1..][n - 1..] == t[n..];
      SubsequenceOfMore(s, t[1..], n - 1);
    } else {
      assert t[0..] == t;
    }
  }

  lemma {:induction false} DropSeparatorsIsSuffix(t: Text)
    ensures DropSeparators(t) == t[|t| - |DropSeparators(t)|..]
    ensures DropSeparators(t) != [] ==> !IsSeparator(DropSeparators(t)[0])
  {
    if t != [] && IsSeparator(t[0]) {
      DropSeparatorsIsSuffix(t[1..]);
    }
  }

  lemma {:induction false} DropDotsIsSuffix(t: Text)
    ensures DropDots(t) == t[|t| - |DropDots(t)|..]
    ensures |DropDots(t)| >= 2 ==> !(DropDots(t)[0] == '.' && DropDots(t)[1] == '.')
  {
    if |t| >= 2 && t[0] == '.' && t[1] == '.' {
      DropDotsIsSuffix(t[2..]);
    }
  }

  lemma AfterFirstIsSuffix(t: Text)
    requires t != []
    ensures AfterFirst(t) == t[|t| - |AfterFirst(t)|..]
  {
    DropSeparatorsIsSuffix(t[1..]);
    DropDotsIsSuffix(DropSeparators(t[1..]));
  }

  lemma SubsequenceCons(c: byte, s: Text, t: Text)
    requires Subsequence(s, t)
    ensures Subsequence([c] + s, [c] + t)
  {
    assert ([c] + s)[1..] == s && ([c] + t)[1..] == t;
  }

  /** `s` was taken from a proper end `r` of `t`, and the first byte of `t` is put in front. */
  lemma SubsequenceStep(s: Text, r: Text, t: Text)
    requires Subsequence(s, r) && |r| < |t| && r == t[|t| - |r|..]
    ensures Subsequence([t[0]] + s, t)
  {
    var tail := t[1..];
    assert r == tail[|tail| - |r|..];
    SubsequenceOfMore(s, tail, |tail| - |r|);
    SubsequenceCons(t[0], s, tail);
    assert t == [t[0]] + tail;
  }

  /** Cleaning only leaves bytes out. */
  lemma {:induction false} CleaningOnlyRemoves(t: Text)
    ensures Subsequence(CleanPath(t), t)
    decreases |t|
  {
    if t != [] {
      CleaningOnlyRemoves(AfterFirst(t));
      AfterFirstIsSuffix(t);
      assert CleanPath(t) == [t[0]] + CleanPath(AfterFirst(t));
      SubsequenceStep(CleanPath(AfterFirst(t)), AfterFirst(t), t);
    }
  }

  /** A slash or a backslash. */
  predicate IsSlash(c: byte) { c as int == 47 || c as int == 92 }

  /** Somewhere one of them is directly followed by a double dot. */
  predicate HasDotDot(t: Text) {
    t != [] && ((IsSlash(t[0]) && |t| >= 3 && t[1] == '.' && t[2] == '.') || HasDotDot(t[1..]))
  }

  /** Somewhere two of them are adjacent. */
  predicate HasDoubleSeparator(t: Text) {
    t != [] && ((IsSlash(t[0]) && |t| >= 2 && IsSlash(t[1])) || HasDoubleSeparator(t[1..]))
  }

  lemma CleanStartsAlike(t: Text)
    ensures CleanPath(t) == [] <==> t == []
    ensures t != [] ==> CleanPath(t)[0] == t[0] && CleanPath(t)[1..] == CleanPath(AfterFirst(t))
  {
  }

  /** The protection: no separator of the result is followed by a double dot. */
  lemma {:induction false} NoDotDotLeft(t: Text)
    ensures !HasDotDot(CleanPath(t))
    decreases |t|
  {
    if t != [] {
      var r := AfterFirst(t);
      NoDotDotLeft(r);
      CleanStartsAlike(t);
      CleanStartsAlike(r);
      if IsSeparator(t[0]) && r != [] {
        DropDotsIsSuffix(DropSeparators(t[1..]));
        if r[0] == '.' && |r| >= 2 {
          CleanStartsAlike(r[1..]);
        }
      }
    }
  }

  /** One or more double dots and then a separator. */
  predicate DotsThenSeparator(t: Text) {
    |t| >= 3 && t[0] == '.' && t[1] == '.' && (IsSlash(t[2]) || DotsThenSeparator(t[2..]))
  }

  /** The path has a component made of an even number of dots between two separators. */
  predicate HasDotsComponent(t: Text) {
    t != [] && ((IsSlash(t[0]) && DotsThenSeparator(t[1..])) || HasDotsComponent(t[1..]))
  }

  lemma {:induction false} ComponentAfterSeparators(t: Text)
    ensures var u := DropSeparators(t);
            ((t != u && DotsThenSeparator(u)) || HasDotsComponent(u)) <==> HasDotsComponent(t)
    ensures DotsThenSeparator(t) ==> DropSeparators(t) == t
  {
    if t != [] && IsSeparator(t[0]) {
      ComponentAfterSeparators(t[1..]);
    }
  }

  lemma {:induction false} ComponentAfterDots(t: Text)
    ensures HasDotsComponent(DropDots(t)) <==> HasDotsComponent(t)
    ensures var r := DropDots(t);
            DotsThenSeparator(t) <==> r != t && r != [] && IsSeparator(r[0])
    ensures |DropDots(t)| <= |t| && (DropDots(t) == t || |DropDots(t)| < |t|)
  {
    if |t| >= 2 && t[0] == '.' && t[1] == '.' {
      ComponentAfterDots(t[2..]);
      assert t[1..][1..] == t[2..];
    }
  }

  lemma ComponentAfterFirst(t: Text)
    requires t != []
    ensures var r := AfterFirst(t);
            HasDotsComponent(t) <==>
              (IsSeparator(t[0]) && r != [] && IsSeparator(r[0])) || HasDotsComponent(r)
  {
    if IsSeparator(t[0]) {
      var u := DropSeparators(t[1..]);
      ComponentAfterSeparators(t[1..]);
      ComponentAfterDots(u);
      DropSeparatorsIsSuffix(t[1..]);
    }
  }

  /** "No double slashes" is not true of the cleaner: removing a component of double dots leaves
      the two separators around it. This is the only way in which it fails. */
  lemma {:induction false} DoubleSeparatorsExactly(t: Text)
    ensures HasDoubleSeparator(CleanPath(t)) <==> HasDotsComponent(t)
    decreases |t|
  {
    if t != [] {
      var r := AfterFirst(t);
      DoubleSeparatorsExactly(r);
      ComponentAfterFirst(t);
      CleanStartsAlike(t);
      CleanStartsAlike(r);
    }
  }

  lemma ParentOfRootKeepsDoubleSlash()
    ensures CleanPath(['/', '.', '.', '/', 'x']) == ['/', '/', 'x']
  {
    var t: Text := ['/', '.', '.', '/', 'x'];
    assert AfterFirst(t) == ['/', 'x'] by {
      assert DropSeparators(t[1..]) == t[1..];
      assert DropDots(t[1..]) == DropDots(['/', 'x']);
    }
    assert AfterFirst(['/', 'x']) == ['x'];
    assert CleanPath(['x']) == ['x'];
  }

  lemma {:induction false} CleaningCleanPath(t: Text)
    requires !HasDotDot(t)
    ensures |CleanPath(t)| <= |t|
    ensures CleanPath(t) == t <==> !HasDoubleSeparator(t)
    decreases |t|
  {
    if t != [] {
      var r := AfterFirst(t);
      if IsSeparator(t[0]) && |t| >= 2 && IsSeparator(t[1]) {
        AfterFirstIsShorter(t);
        CleanPathIsShort(r);
      } else {
        assert r == t[1..];
        CleaningCleanPath(t[1..]);
        assert t == [t[0]] + t[1..];
      }
    }
  }

  lemma AfterFirstIsShorter(t: Text)
    requires |t| >= 2 && IsSeparator(t[1]) && IsSeparator(t[0])
    ensures |AfterFirst(t)| < |t| - 1
  {
  }

  lemma {:induction false} CleanPathIsShort(t: Text)
    ensures |CleanPath(t)| <= |t|
    decreases |t|
  {
    if t != [] {
      CleanPathIsShort(AfterFirst(t));
    }
  }

  /** The bytes of a path other than separators and dots. */
  function Letters(t: Text): Text {
    if t == [] then [] else (if IsSlash(t[0]) || t[0] == '.' then [] else [t[0]]) + Letters(t[1..])
  }

  lemma {:induction false} SeparatorsAreNoLetters(t: Text)
    ensures Letters(DropSeparators(t)) == Letters(t)
  {
    if t != [] && IsSeparator(t[0]) {
      SeparatorsAreNoLetters(t[1..]);
    }
  }

  lemma {:induction false} DotsAreNoLetters(t: Text)
    ensures Letters(DropDots(t)) == Letters(t)
  {
    if |t| >= 2 && t[0] == '.' && t[1] == '.' {
      DotsAreNoLetters(t[2..]);
      assert t[1..][1..] == t[2..];
    }
  }

  /** Cleaning keeps every other byte, in its place among the others. */
  lemma {:induction false} CleaningKeepsLetters(t: Text)
    ensures Letters(CleanPath(t)) == Letters(t)
    decreases |t|
  {
    if t != [] {
      CleaningKeepsLetters(AfterFirst(t));
      CleanStartsAlike(t);
      if IsSeparator(t[0]) {
        SeparatorsAreNoLetters(t[1..]);
        DotsAreNoLetters(DropSeparators(t[1..]));
      }
    }
  }

  /** The paths that cleaning does not change. */
  lemma CleanExactly(t: Text)
    ensures CleanPath(t) == t <==> !HasDotDot(t) && !HasDoubleSeparator(t)
  {
    NoDotDotLeft(t);
    if !HasDotDot(t) {
      CleaningCleanPath(t);
    }
  }

  /** A second pass changes nothing exactly when the first one left no double separator. */
  lemma CleaningTwice(t: Text)
    ensures CleanPath(CleanPath(t)) == CleanPath(t) <==> !HasDotsComponent(t)
  {
    NoDotDotLeft(t);
    DoubleSeparatorsExactly(t);
    CleaningCleanPath(CleanPath(t));
  }
}
