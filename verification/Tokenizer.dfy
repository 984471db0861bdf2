/** Splitting a request head into NUL-terminated words, in place. */
module Tokenizer {
  import opened Bytes

  const COLON: Text := [':']
  const SPACE: Text := [' ']
  const CRLF: Text := ['\r', '\n']

  /** Length of the longest prefix without bytes of `chars` (`strcspn`). */
  function CSpan(t: Text, chars: Text): (k: nat)
    ensures k <= |t|
  {
    if t == [] || t[0] in chars then 0 else 1 + CSpan(t[1..], chars)
  }

  /** Length of the longest prefix of bytes of `chars` (`strspn`). */
  function Span(t: Text, chars: Text): (k: nat)
    ensures k <= |t|
  {
    if t == [] || t[0] !in chars then 0 else 1 + Span(t[1..], chars)
  }

  /** The word before the first delimiter, and what follows that delimiter and the white space
      after it. */
  function Word(t: Text, delimiters: Text): Text {
    t[..CSpan(t, delimiters)]
  }

  function Rest(t: Text, delimiters: Text, white: Text): Text {
    var k := CSpan(t, delimiters);
    if k == |t| then [] else t[k + 1 + Span(t[k + 1..], white)..]
  }

  /** The defining property of `strspn`: all before `k` in the set, and not the byte at `k`. */
  lemma {:induction false} SpanIs(t: Text, k: nat, chars: Text)
    requires k <= |t| && (forall i :: 0 <= i < k ==> t[i] in chars) && (k < |t| ==> t[k] !in chars)
    ensures Span(t, chars) == k
  {
    if k > 0 {
      SpanIs(t[1..], k - 1, chars);
    }
  }

  /** The defining property of `strcspn`: the byte at `k` is the first one of the set. */
  lemma {:induction false} CSpanIs(t: Text, k: nat, chars: Text)
    requires k <= |t| && (forall i :: 0 <= i < k ==> t[i] !in chars) && (k < |t| ==> t[k] in chars)
    ensures CSpan(t, chars) == k
  {
    if k > 0 {
      CSpanIs(t[1..], k - 1, chars);
    }
  }

  lemma {:induction false} CSpanStops(t: Text, chars: Text)
    ensures forall i :: 0 <= i < CSpan(t, chars) ==> t[i] !in chars
    ensures CSpan(t, chars) < |t| ==> t[CSpan(t, chars)] in chars
  {
    if t != [] && t[0] !in chars {
      CSpanStops(t[1..], chars);
    }
  }

  // ---------- Strings inside a buffer ----------

  /** The C string at `p` is `t`. */
  ghost predicate IsString(b: Text, p: nat, t: Text) {
    && p + |t| < |b| && b[p + |t|] == NUL
    && forall i :: p <= i < p + |t| ==> b[i] == t[i - p] && b[i] != NUL
  }

  /** Any string in a buffer has the strings it starts with a NUL at, and ends with. */
  lemma SuffixIsString(b: Text, p: nat, t: Text, k: nat)
    requires IsString(b, p, t) && k <= |t|
    ensures IsString(b, p + k, t[k..])
  {
  }

  /** Whatever stands before a NUL contains a C string. */
  lemma DecodedString(b: Text, p: nat, len: nat)
    requires p + len < |b| && b[p + len] == NUL
    ensures IsString(b, p, CString(b[p..p + len]))
    ensures |CString(b[p..p + len])| <= len
  {
    var s := CString(b[p..p + len]);
    forall i | p <= i < p + |s|
      ensures b[i] == s[i - p] && b[i] != NUL
    {
      assert b[p..p + len][i - p] == s[i - p] && s[i - p] in s;
    }
  }

  /** Between two states of the buffer only bytes of `[lo, hi)` changed, and only to NUL. */
  ghost predicate Cleared(before: Text, after: Text, lo: int, hi: int) {
    && |before| == |after|
    && forall i :: 0 <= i < |before| ==> after[i] == before[i] || (lo <= i < hi && after[i] == NUL)
  }

  lemma StringKept(before: Text, after: Text, lo: int, hi: int, p: nat, t: Text)
    requires IsString(before, p, t) && Cleared(before, after, lo, hi)
    requires p + |t| <= lo || hi <= p
    ensures IsString(after, p, t)
  {
  }

  lemma ClearedTwice(a: Text, b: Text, c: Text, lo: int, mid: int, hi: int)
    requires Cleared(a, b, lo, mid) && Cleared(b, c, mid, hi) && lo <= mid <= hi
    ensures Cleared(a, c, lo, hi)
  {
  }

  method StrCSpn(b: array<byte>, p: nat, chars: Text, ghost t: Text) returns (k: nat)
    requires IsString(b[..], p, t)
    ensures k == CSpan(t, chars)
  {
    k := 0;
    while b[p + k] != NUL && b[p + k] !in chars
      invariant k <= |t|
      invariant forall i :: 0 <= i < k ==> t[i] !in chars
      decreases |t| - k
    {
      assert b[..][p + k] == t[k];
      k := k + 1;
    }
    if k < |t| {
      assert b[..][p + k] == t[k];
    }
    CSpanIs(t, k, chars);
  }

  method StrSpn(b: array<byte>, p: nat, chars: Text, ghost t: Text) returns (k: nat)
    requires IsString(b[..], p, t) && NUL !in chars
    ensures k == Span(t, chars)
  {
    k := 0;
    while b[p + k] in chars
      invariant k <= |t|
      invariant forall i :: 0 <= i < k ==> t[i] in chars
      decreases |t| - k
    {
      assert k < |t| && b[..][p + k] == t[k];
      k := k + 1;
    }
    if k < |t| {
      assert b[..][p + k] == t[k];
    }
    SpanIs(t, k, chars);
  }

  method Clear(b: array<byte>, lo: nat, hi: nat)
    requires lo <= hi <= b.Length
    modifies b
    ensures Cleared(old(b[..]), b[..], lo, hi)
    ensures forall i :: lo <= i < hi ==> b[i] == NUL
  {
    var p := lo;
    while p < hi
      invariant lo <= p <= hi
      invariant Cleared(old(b[..]), b[..], lo, hi)
      invariant forall i :: lo <= i < p ==> b[i] == NUL
    {
      b[p] := NUL;
      p := p + 1;
    }
  }

  /** The buffer after the word at `p` was cut off; the next word starts at `next`. */
  ghost predicate Skipped(before: Text, after: Text, p: nat, t: Text, next: nat, word: Text, rest: Text) {
    && p <= next && next + |rest| == p + |t|
    && IsString(after, p, word) && IsString(after, next, rest)
    && (word == t || (p + |word| < next && after[next - 1] == NUL))
    && Cleared(before, after, p, next)
  }

  /** Clearing the bytes from the end of a word to the start of the next leaves two strings. */
  lemma CutIsTwoStrings(before: Text, after: Text, p: nat, t: Text, k: nat, n: nat)
    requires IsString(before, p, t) && k < n <= |t|
    requires Cleared(before, after, p + k, p + n) && after[p + k] == after[p + n - 1] == NUL
    ensures Skipped(before, after, p, t, p + n, t[..k], t[n..])
  {
  }

  lemma CutIsSkip(before: Text, after: Text, p: nat, t: Text, n: nat, delimiters: Text, white: Text)
    requires IsString(before, p, t) && CSpan(t, delimiters) < |t|
    requires n == CSpan(t, delimiters) + 1 + Span(t[CSpan(t, delimiters) + 1..], white)
    requires Cleared(before, after, p + CSpan(t, delimiters), p + n)
    requires after[p + CSpan(t, delimiters)] == after[p + n - 1] == NUL
    ensures Skipped(before, after, p, t, p + n, Word(t, delimiters), Rest(t, delimiters, white))
  {
    CutIsTwoStrings(before, after, p, t, CSpan(t, delimiters), n);
  }

  /** A word holds no NUL: with the quote character 0 the loop over quoted delimiters, which looks
      at the last byte of the word, is never entered. */
  lemma LastByteIsNoQuote(b: Text, p: nat, t: Text, k: nat)
    requires IsString(b, p, t) && 0 < k <= |t|
    ensures b[p + k - 1] != NUL
  {
  }

  lemma WholeIsWord(b: Text, p: nat, t: Text, delimiters: Text, white: Text)
    requires IsString(b, p, t) && CSpan(t, delimiters) == |t|
    ensures Skipped(b, b, p, t, p + |t|, Word(t, delimiters), Rest(t, delimiters, white))
  {
    assert Word(t, delimiters) == t;
  }

  /** Cuts the buffer at the delimiter `k` bytes after `p` and skips the white space behind it. */
  method Cut(b: array<byte>, p: nat, k: nat, ghost delimiters: Text, white: Text, ghost t: Text) returns (next: nat)
    requires IsString(b[..], p, t) && k == CSpan(t, delimiters) < |t| && NUL !in white
    modifies b
    ensures Skipped(old(b[..]), b[..], p, t, next, Word(t, delimiters), Rest(t, delimiters, white))
  {
    SuffixIsString(b[..], p, t, k + 1);
    var blanks := StrSpn(b, p + k + 1, white, t[k + 1..]);
    next := p + k + 1 + blanks;
    ghost var before := b[..];
    Clear(b, p + k, next);
    CutIsSkip(before, b[..], p, t, k + 1 + blanks, delimiters, white);
  }

  /** The end of the word. The test of the loop over quoted delimiters fails at once: the last byte
      of the word is not the quote character 0. */
  method EndOfWord(b: array<byte>, p: nat, delimiters: Text, ghost t: Text) returns (k: nat)
    requires IsString(b[..], p, t)
    ensures k == CSpan(t, delimiters)
  {
    k := StrCSpn(b, p, delimiters, t);
    if k > 0 {
      LastByteIsNoQuote(b[..], p, t, k);
      assert b[p + k - 1] != NUL;
    }
  }

  /** `skip_quoted` for the quote character 0, the only one the server passes. Returns where the
      next word starts; the word itself is at `p`. */
  method Skip(b: array<byte>, p: nat, delimiters: Text, white: Text, ghost t: Text) returns (next: nat)
    requires IsString(b[..], p, t) && NUL !in white
    modifies b
    ensures Skipped(old(b[..]), b[..], p, t, next, Word(t, delimiters), Rest(t, delimiters, white))
  {
    var k := EndOfWord(b, p, delimiters, t);
    assert b[..][p + k] == b[p + k];
    if b[p + k] == NUL {
      WholeIsWord(b[..], p, t, delimiters, white);
      next := p + k;
    } else {
      next := Cut(b, p, k, delimiters, white, t);
    }
  }
}
