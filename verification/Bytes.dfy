/** C bytes and NUL-terminated strings. */
module Bytes {

  /** One byte of a C `char` buffer. */
  type byte = c: char | c as int < 256 witness '\0'

  type Text = seq<byte>

  const NUL: byte := '\0'

  function Code(c: byte): int { c as int }

  function Min(a: int, b: int): int { if a < b then a else b }

  function Max(a: int, b: int): int { if a < b then b else a }

  /** At most `n` bytes. */
  function Take(t: Text, n: nat): Text { t[..Min(n, |t|)] }

  predicate IsDigit(c: byte) { '0' <= c <= '9' }

  predicate NulFree(s: Text) { forall c <- s :: c != NUL }

  /** The C string that starts at the beginning of `b`: everything before the first NUL. */
  function CString(b: Text): (s: Text)
    ensures |s| <= |b| && s == b[..|s|] && NulFree(s)
    ensures |s| < |b| ==> b[|s|] == NUL
  {
    if b == [] || b[0] == NUL then [] else [b[0]] + CString(b[1..])
  }

  /** Only the bytes before the first NUL matter. */
  lemma {:induction false} CStringIs(b: Text, n: nat)
    requires n < |b| && b[n] == NUL && NulFree(b[..n])
    ensures CString(b) == b[..n]
  {
    if n > 0 {
      assert b[0] in b[..n];
      assert b[1..][..n - 1] == b[..n][1..];
      assert forall c <- b[..n][1..] :: c in b[..n];
      CStringIs(b[1..], n - 1);
    }
  }

  lemma {:induction false} NulFreeIsWhole(t: Text)
    requires NulFree(t)
    ensures CString(t) == t
  {
    if t != [] {
      assert t[0] in t && forall c <- t[1..] :: c in t;
      NulFreeIsWhole(t[1..]);
    }
  }

  /** Between two states of a buffer only bytes of `[lo, hi]` changed. */
  ghost predicate OnlyWithin(before: Text, after: Text, lo: int, hi: int) {
    |before| == |after| && forall k :: 0 <= k < |before| && !(lo <= k <= hi) ==> after[k] == before[k]
  }

  lemma OnlyWithinTwice(a: Text, b: Text, c: Text, lo: int, hi: int)
    requires OnlyWithin(a, b, lo, hi) && OnlyWithin(b, c, lo, hi)
    ensures OnlyWithin(a, c, lo, hi)
  {
  }

  // ---------- Hexadecimal digits ----------

  predicate IsHex(c: byte) {
    IsDigit(c) || 'a' <= c <= 'f' || 'A' <= c <= 'F'
  }

  function HexValue(c: byte): (v: int)
    requires IsHex(c)
    ensures 0 <= v < 16
  {
    if IsDigit(c) then Code(c) - Code('0')
    else if 'a' <= c <= 'f' then 10 + Code(c) - Code('a')
    else 10 + Code(c) - Code('A')
  }

  /** The byte with the two hexadecimal digits `a` and `b`. */
  function FromHexPair(a: byte, b: byte): byte
    requires IsHex(a) && IsHex(b)
  {
    (16 * HexValue(a) + HexValue(b)) as char
  }

  function HexDigit(v: int, upper: bool): (c: byte)
    requires 0 <= v < 16
    ensures IsHex(c) && HexValue(c) == v
  {
    if v < 10 then (Code('0') + v) as char
    else if upper then (Code('A') + v - 10) as char
    else (Code('a') + v - 10) as char
  }
}
