/** Finding the end of an HTTP request head in a growing buffer. */
module RequestHead {
  import opened Bytes

  /** Control characters other than CR and LF; bytes from 128 on are allowed. */
  predicate Forbidden(c: byte) {
    !(32 <= c as int <= 126) && c != '\r' && c != '\n' && c as int < 128
  }

  /** An empty line ends at the line feed at `i`, entirely inside `b`. */
  predicate EndsAt(b: Text, i: nat) {
    && i + 1 < |b| && b[i] == '\n'
    && (b[i + 1] == '\n' || (i + 2 < |b| && b[i + 1] == '\r' && b[i + 2] == '\n'))
  }

  function EndOf(b: Text, i: nat): nat
    requires EndsAt(b, i)
  {
    if b[i + 1] == '\n' then i + 2 else i + 3
  }

  /** Index of the first line feed from `i` on that ends a head, or -1. */
  function FirstEnd(b: Text, i: nat): (r: int)
    ensures r == -1 || (i <= r && EndsAt(b, r))
    ensures forall j: nat :: i <= j && (r == -1 || j < r) ==> !EndsAt(b, j)
    decreases |b| - i
  {
    if i >= |b| then -1 else if EndsAt(b, i) then i else FirstEnd(b, i + 1)
  }

  ghost predicate HasForbidden(b: Text) {
    exists i :: 0 <= i < |b| && Forbidden(b[i])
  }

  /** Length of the head if it is complete; otherwise -1 if a forbidden byte is seen, where the
      last byte is not looked at; otherwise 0. */
  ghost function RequestLen(b: Text): int {
    var e := FirstEnd(b, 0);
    if e >= 0 then EndOf(b, e)
    else if |b| > 0 && HasForbidden(b[..|b| - 1]) then -1 else 0
  }

  method GetRequestLen(buf: array<byte>, buflen: nat) returns (len: int)
    requires buflen <= buf.Length
    ensures len == RequestLen(buf[..buflen])
  {
    len := 0;
    ghost var b := buf[..buflen];
    var s := 0;
    while len <= 0 && s < buflen - 1
      invariant 0 <= s <= Max(0, buflen - 1)
      invariant len == 0 || len == -1 || (len > 0 && len == RequestLen(b))
      invariant len <= 0 ==> forall j: nat :: j < s ==> !EndsAt(b, j)
      invariant len == -1 <==> len <= 0 && exists j :: 0 <= j < s && Forbidden(b[j])
      decreases buflen - s + (if len <= 0 then 1 else 0)
    {
      if Forbidden(buf[s]) {
        len := -1;
      } else if buf[s] == '\n' && buf[s + 1] == '\n' {
        len := s + 2;
        assert EndsAt(b, s) && FirstEnd(b, 0) == s;
      } else if buf[s] == '\n' && s + 1 < buflen - 1 && buf[s + 1] == '\r' && buf[s + 2] == '\n' {
        len := s + 3;
        assert EndsAt(b, s) && FirstEnd(b, 0) == s;
      }
      s := s + 1;
    }
    if len <= 0 {
      assert forall j: nat :: EndsAt(b, j) ==> j < buflen - 1;
      assert FirstEnd(b, 0) == -1;
      if buflen > 0 {
        assert forall j :: 0 <= j < buflen - 1 ==> b[..buflen - 1][j] == b[j];
      }
    }
  }

  // ---------- In bytes ----------

  /** A line feed at `i`, and behind it another one, or a carriage return and another one. */
  predicate EmptyLineBehind(b: Text, i: nat) {
    && i + 1 < |b| && b[i] as int == 10
    && (b[i + 1] as int == 10 || (i + 2 < |b| && b[i + 1] as int == 13 && b[i + 2] as int == 10))
  }

  /** A control character other than line feed and carriage return, DEL included, that is not the last
      byte. */
  predicate ControlAt(b: Text, i: nat) {
    i + 1 < |b| && ((b[i] as int < 32 && b[i] as int != 10 && b[i] as int != 13) || b[i] as int == 127)
  }

  ghost predicate IsFirstEmptyLine(b: Text, i: nat) {
    EmptyLineBehind(b, i) && forall j: nat :: j < i ==> !EmptyLineBehind(b, j)
  }

  /** The head ends with the first empty line, whether its lines end with CRLF or with a line feed.
      Without one the request is malformed if it has a control character, and unfinished otherwise. */
  lemma RequestLenExactly(b: Text)
    ensures forall i: nat :: IsFirstEmptyLine(b, i) ==> RequestLen(b) == if b[i + 1] as int == 10 then i + 2 else i + 3
    ensures (forall i: nat :: !EmptyLineBehind(b, i)) ==>
              RequestLen(b) == if exists i: nat :: ControlAt(b, i) then -1 else 0
  {
    var e := FirstEnd(b, 0);
    forall i: nat
      ensures EmptyLineBehind(b, i) <==> EndsAt(b, i)
    {
    }
    if e == -1 {
      if exists i: nat :: ControlAt(b, i) {
        var i: nat :| ControlAt(b, i);
        assert Forbidden(b[..|b| - 1][i]);
      } else if |b| > 0 && HasForbidden(b[..|b| - 1]) {
        var i :| 0 <= i < |b| - 1 && Forbidden(b[..|b| - 1][i]);
        assert ControlAt(b, i);
      }
    }
  }

  /** A complete head stays the same head when more bytes arrive. */
  lemma HeadIsStable(b: Text, more: Text)
    requires RequestLen(b) > 0
    ensures RequestLen(b + more) == RequestLen(b)
  {
    var e := FirstEnd(b, 0);
    assert forall j: nat :: j <= e ==> (EndsAt(b + more, j) <==> EndsAt(b, j));
  }

  // ---------- Reading a head in pieces ----------

  /** `cuts` are the amounts buffered after each successful read; the reader goes on while the
      scan says 0 and there is room. */
  ghost predicate Framing(stream: Text, capacity: nat, cuts: seq<nat>, len: int) {
    && (forall i :: 0 <= i < |cuts| ==> 0 < cuts[i] <= Min(capacity, |stream|))
    && (forall i, j :: 0 <= i < j < |cuts| ==> cuts[i] < cuts[j])
    && (forall i :: 0 <= i < |cuts| - 1 ==> RequestLen(stream[..cuts[i]]) == 0)
    && len == if cuts == [] then 0 else RequestLen(stream[..cuts[|cuts| - 1]])
  }

  function Buffered(cuts: seq<nat>): nat {
    if cuts == [] then 0 else cuts[|cuts| - 1]
  }

  /** Another read, after which the buffer holds `n` bytes. */
  lemma FramingGrows(stream: Text, capacity: nat, cuts: seq<nat>, n: nat)
    requires Framing(stream, capacity, cuts, 0) && Buffered(cuts) < n <= Min(capacity, |stream|)
    ensures Framing(stream, capacity, cuts + [n], RequestLen(stream[..n]))
    ensures Buffered(cuts + [n]) == n
  {
    var more := cuts + [n];
    forall i | 0 <= i < |more| - 1
      ensures more[i] == cuts[i] && RequestLen(stream[..more[i]]) == 0
    {
    }
  }

  /** The reader stopped because of its answer, or because nothing more fits or comes. */
  ghost predicate Complete(stream: Text, capacity: nat, cuts: seq<nat>, len: int) {
    len != 0 || Buffered(cuts) == Min(capacity, |stream|)
  }

  /** What the buffer can hold of the stream. */
  function Window(stream: Text, capacity: nat): Text {
    stream[..Min(capacity, |stream|)]
  }

  ghost function FramedLen(stream: Text, capacity: nat): int {
    RequestLen(Window(stream, capacity))
  }

  /** However the bytes arrive, even if they stop coming, a positive answer is the right one. */
  lemma PositiveAnswerIsRight(stream: Text, capacity: nat, cuts: seq<nat>, len: int)
    requires Framing(stream, capacity, cuts, len) && len > 0
    ensures len == FramedLen(stream, capacity) && len <= Buffered(cuts)
  {
    var w, n := Window(stream, capacity), Buffered(cuts);
    assert w == stream[..n] + w[n..];
    HeadIsStable(stream[..n], w[n..]);
  }

  /** No forbidden byte inside the head, if the window holds one. */
  ghost predicate CleanHead(stream: Text, capacity: nat) {
    FramedLen(stream, capacity) > 0 ==> !HasForbidden(stream[..FramedLen(stream, capacity)])
  }

  lemma ForbiddenGrows(b: Text, n: nat)
    requires 0 < n <= |b| && RequestLen(b[..n]) == -1 && FirstEnd(b, 0) == -1
    ensures RequestLen(b) == -1
  {
    var i :| 0 <= i < n - 1 && Forbidden(b[..n][..n - 1][i]);
    assert b[..|b| - 1][i] == b[i];
  }

  lemma EndInPrefix(b: Text, n: nat, j: nat)
    requires n <= |b| && EndsAt(b[..n], j)
    ensures EndsAt(b, j) && EndOf(b, j) <= n
  {
  }

  lemma NoEndBeforeFirst(b: Text, n: nat)
    requires n <= |b| && FirstEnd(b, 0) >= 0 ==> n < EndOf(b, FirstEnd(b, 0))
    requires n <= |b|
    ensures FirstEnd(b[..n], 0) == -1
  {
    var j := FirstEnd(b[..n], 0);
    if j >= 0 {
      EndInPrefix(b, n, j);
    }
  }

  /** A buffer that ends inside a clean head is neither complete nor malformed. */
  lemma CleanPrefixIsUndecided(b: Text, n: nat)
    requires RequestLen(b) > 0 && !HasForbidden(b[..RequestLen(b)]) && n < RequestLen(b)
    ensures RequestLen(b[..n]) == 0
  {
    NoEndBeforeFirst(b, n);
    assert forall j: nat :: j < n ==> b[..RequestLen(b)][j] == b[j];
  }

  lemma CleanHeadFramesAlike(stream: Text, capacity: nat, cuts: seq<nat>, len: int)
    requires CleanHead(stream, capacity)
    requires Framing(stream, capacity, cuts, len) && Complete(stream, capacity, cuts, len)
    ensures len == FramedLen(stream, capacity)
  {
    var w, n := Window(stream, capacity), Buffered(cuts);
    assert stream[..n] == w[..n];
    if len > 0 {
      PositiveAnswerIsRight(stream, capacity, cuts, len);
    } else if n == |w| {
      assert w[..n] == w;
    } else if FirstEnd(w, 0) == -1 {
      ForbiddenGrows(w, n);
    } else {
      assert w[..RequestLen(w)] == stream[..RequestLen(w)];
      if n < RequestLen(w) {
        CleanPrefixIsUndecided(w, n);
      } else {
        var e := FirstEnd(w, 0);
        assert EndsAt(w[..n], e);
      }
    }
  }

  /** One read that stops just behind a forbidden byte of the head reports a malformed request. */
  lemma DirtyHeadSplits(stream: Text, capacity: nat) returns (cut: nat)
    requires !CleanHead(stream, capacity)
    ensures Framing(stream, capacity, [cut], -1) && Complete(stream, capacity, [cut], -1)
  {
    var w, len := Window(stream, capacity), FramedLen(stream, capacity);
    var e := FirstEnd(w, 0);
    assert EndsAt(w, e);
    var i :| 0 <= i < len && Forbidden(stream[..len][i]);
    assert w[i] == stream[i] && i < e;
    cut := i + 2;
    assert stream[..cut] == w[..cut];
    NoEndBeforeFirst(w, cut);
    assert w[..cut][..cut - 1][i] == w[i];
  }

  /** Every way of splitting the stream gives the same answer exactly when the head is clean. */
  lemma FragmentationIndependence(stream: Text, capacity: nat)
    ensures CleanHead(stream, capacity) <==>
              forall cuts, len :: Framing(stream, capacity, cuts, len) && Complete(stream, capacity, cuts, len)
                ==> len == FramedLen(stream, capacity)
  {
    if CleanHead(stream, capacity) {
      forall cuts, len | Framing(stream, capacity, cuts, len) && Complete(stream, capacity, cuts, len)
        ensures len == FramedLen(stream, capacity)
      {
        CleanHeadFramesAlike(stream, capacity, cuts, len);
      }
    } else {
      var cut := DirtyHeadSplits(stream, capacity);
    }
  }
}
