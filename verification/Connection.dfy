/** A connection of the HTTP server: reading the request head, reading the body, and dropping
    the request from the buffer, over a socket that splits its bytes arbitrarily. */
module Connection {
  import opened Bytes
  import opened RequestHead

  /** The receiving end of a TCP socket. `pending` is what the peer has sent or will send and
      `recv` has not delivered; `broken` is set by a receive that fails while bytes are pending.
      `script` is how the network behaves: at most how many bytes each receive delivers, 0 for one
      that fails; behind its end everything that fits arrives. It is arbitrary. */
  class Socket {
    var pending: Text
    var broken: bool
    var script: seq<nat>

    constructor (sent: Text, script: seq<nat>)
      ensures pending == sent && !broken && this.script == script
    {
      pending, broken, this.script := sent, false, script;
    }

    /** `recv`: any positive number of bytes that fits, or 0 at the end of the stream, on a
        timeout or on an error. */
    method Pull(buf: array<byte>, off: nat, len: nat) returns (n: nat)
      requires off + len <= buf.Length
      modifies this, buf
      ensures n == if len == 0 || old(pending) == [] then 0 else Granted(old(script), Min(len, |old(pending)|))
      ensures script == if len == 0 || old(pending) == [] then old(script) else Later(old(script))
      ensures n <= len && n <= |old(pending)|
      ensures pending == old(pending)[n..]
      ensures buf[..] == old(buf[..off]) + old(pending)[..n] + old(buf[off + n..])
      ensures n > 0 ==> broken == old(broken)
      ensures n == 0 && len > 0 && pending != [] ==> broken
      ensures old(broken) ==> broken
    {
      n := 0;
      if len > 0 && pending != [] {
        n := Granted(script, Min(len, |pending|));
        script := Later(script);
        broken := broken || n == 0;
        forall i | 0 <= i < n {
          buf[off + i] := pending[i];
        }
        pending := pending[n..];
      }
    }
  }

  /** How many of the bytes that would fit the next receive delivers. */
  function Granted(script: seq<nat>, fits: nat): nat {
    if script == [] then fits else Min(script[0], fits)
  }

  function Later(script: seq<nat>): seq<nat> {
    if script == [] then [] else script[1..]
  }

  /** How many bytes a loop of receives gets that wants `want` of the `have` pending ones: it goes on
      until it has them or a receive brings nothing. */
  function Delivered(script: seq<nat>, want: nat, have: nat): (n: nat)
    ensures n <= want && n <= have
    decreases want
  {
    if want == 0 || have == 0 then 0
    else
      var n := Granted(script, Min(want, have));
      if n == 0 then 0 else n + Delivered(Later(script), want - n, have - n)
  }

  /** The first receive delivers a whole head, and what it can of the body. */
  ghost predicate HeadArrivesAtOnce(stream: Text, capacity: nat, script: seq<nat>) {
    && script != [] && 0 < script[0] <= Min(capacity, |stream|)
    && RequestLen(stream[..script[0]]) > 0
  }

  lemma SliceOfSlice(s: Text, lo: nat, hi: nat, c: nat, n: nat)
    requires lo + c + n <= hi <= |s|
    ensures s[lo..hi][c..c + n] == s[lo + c..lo + c + n]
  {
    assert s[lo..hi][c..] == s[lo + c..hi] && s[lo..hi][c..c + n] == s[lo..hi][c..][..n];
  }

  class Conn {
    const buf: array<byte>
    const sock: Socket
    var dataLen: nat
    var requestLen: int
    var contentLen: int
    var consumed: nat

    /** Everything the peer sends on this connection. */
    ghost const stream: Text

    constructor (sock: Socket, capacity: nat)
      ensures this.sock == sock && fresh(buf) && buf.Length == capacity
      ensures stream == sock.pending
      ensures Fresh()
    {
      this.sock := sock;
      buf := new byte[capacity](_ => NUL);
      stream := sock.pending;
      dataLen, requestLen, contentLen, consumed := 0, 0, -1, 0;
    }

    /** The state in which a new request is read: `reset_per_request_attributes` has run. */
    ghost predicate Fresh()
      reads this, sock
    {
      dataLen == 0 && requestLen == 0 && contentLen == -1 && consumed == 0 && sock.pending == stream
    }

    /** One `recv` of the loop that reads the head. */
    method PullHead() returns (n: nat)
      requires dataLen < buf.Length && dataLen <= |stream|
      requires buf[..dataLen] == stream[..dataLen] && sock.pending == stream[dataLen..]
      modifies this`dataLen, sock, buf
      ensures dataLen == old(dataLen) + n <= Min(buf.Length, |stream|)
      ensures buf[..dataLen] == stream[..dataLen] && sock.pending == stream[dataLen..]
      ensures n == 0 && dataLen < |stream| ==> sock.broken
      ensures old(dataLen) < |stream| ==>
                n == Granted(old(sock.script), Min(buf.Length, |stream|) - old(dataLen)) &&
                sock.script == Later(old(sock.script))
    {
      n := sock.Pull(buf, dataLen, buf.Length - dataLen);
      assert stream[..dataLen + n] == stream[..dataLen] + stream[dataLen..][..n];
      dataLen := dataLen + n;
    }

    /** Fills the buffer until it holds a whole head. `cuts` records how the bytes arrived. */
    method ReadRequest() returns (ghost cuts: seq<nat>)
      requires Fresh()
      modifies this`dataLen, this`requestLen, sock, buf
      ensures Framing(stream, buf.Length, cuts, requestLen) && dataLen == Buffered(cuts)
      ensures !sock.broken ==> Complete(stream, buf.Length, cuts, requestLen)
      ensures requestLen > 0 ==> requestLen == FramedLen(stream, buf.Length)
      ensures !sock.broken && CleanHead(stream, buf.Length) ==> requestLen == FramedLen(stream, buf.Length)
      ensures requestLen <= dataLen <= buf.Length && dataLen <= |stream|
      ensures buf[..dataLen] == stream[..dataLen] && sock.pending == stream[dataLen..]
      ensures HeadArrivesAtOnce(stream, buf.Length, old(sock.script)) ==>
                requestLen > 0 && dataLen == old(sock.script)[0] && sock.script == old(sock.script)[1..]
    {
      cuts := [];
      while dataLen < buf.Length && requestLen == 0
        invariant dataLen == Buffered(cuts) <= Min(buf.Length, |stream|)
        invariant buf[..dataLen] == stream[..dataLen] && sock.pending == stream[dataLen..]
        invariant Framing(stream, buf.Length, cuts, requestLen)
        invariant HeadArrivesAtOnce(stream, buf.Length, old(sock.script)) ==>
                    if dataLen == 0 then requestLen == 0 && sock.script == old(sock.script)
                    else requestLen > 0 && dataLen == old(sock.script)[0] && sock.script == old(sock.script)[1..]
        decreases buf.Length - dataLen
      {
        var n := PullHead();
        if n == 0 {
          break;
        }
        FramingGrows(stream, buf.Length, cuts, dataLen);
        requestLen := GetRequestLen(buf, dataLen);
        cuts := cuts + [dataLen];
      }
      if requestLen > 0 {
        PositiveAnswerIsRight(stream, buf.Length, cuts, requestLen);
      }
      if !sock.broken && CleanHead(stream, buf.Length) {
        CleanHeadFramesAlike(stream, buf.Length, cuts, requestLen);
      }
    }

    /** Bytes taken from the socket so far. */
    ghost function Pulled(): int
      reads this
    {
      Max(dataLen, requestLen + consumed)
    }

    /** The head has been read and `consumed` bytes of the body have been returned. */
    ghost predicate BodyValid()
      reads this, sock, buf
    {
      && 0 < requestLen <= dataLen <= buf.Length
      && contentLen >= -1 && consumed <= Max(0, contentLen)
      && Pulled() <= |stream| && sock.pending == stream[Pulled()..]
      && forall i :: requestLen <= i < dataLen ==> buf[i] == stream[i]
    }

    /** The body as the peer sent it, as far as it did. */
    ghost function Body(): Text
      requires BodyValid()
      reads this, sock, buf
    {
      stream[requestLen..Min(|stream|, requestLen + Max(0, contentLen))]
    }

    /** `dst[lo..hi]` holds the stream from index `lo + shift` on. */
    ghost predicate Holds(dst: array<byte>, lo: nat, hi: nat, shift: int)
      requires lo <= hi <= dst.Length && 0 <= lo + shift && hi + shift <= |stream|
      reads dst
    {
      forall i :: lo <= i < hi ==> dst[i] == stream[i + shift]
    }

    /** `n` bytes have been read into `dst` since `c` bytes of the body were consumed, when `dst`
        held `was`. */
    ghost predicate Progress(dst: array<byte>, was: Text, n: nat, c: nat)
      reads this, sock, buf, dst
    {
      && BodyValid() && n <= dst.Length == |was| && consumed == c + n
      && Holds(dst, 0, n, requestLen + c)
      && forall i :: n <= i < dst.Length ==> dst[i] == was[i]
    }

    /** The first half of `mg_read`: body bytes that arrived together with the head. */
    method ReadBuffered(dst: array<byte>, len: nat) returns (n: nat)
      requires BodyValid() && len <= contentLen - consumed && len <= dst.Length && dst != buf
      modifies this`consumed, dst
      ensures Progress(dst, old(dst[..]), n, old(consumed))
      ensures n == Min(len, Max(0, dataLen - requestLen - old(consumed)))
    {
      n := 0;
      if consumed < dataLen - requestLen {
        n := Min(len, dataLen - requestLen - consumed);
        var start := requestLen + consumed;
        forall i | 0 <= i < n {
          dst[i] := buf[start + i];
        }
        consumed := consumed + n;
      }
    }

    /** How many bytes a loop of receives gets now that wants `len`. */
    ghost function Coming(len: nat): nat
      reads this, sock
    {
      Delivered(sock.script, len, |sock.pending|)
    }

    /** One `recv` of the loop that reads the rest of the body. */
    method PullInto(dst: array<byte>, off: nat, len: nat) returns (k: nat)
      requires BodyValid() && 0 < len <= contentLen - consumed && off + len <= dst.Length && dst != buf
      requires dataLen <= requestLen + consumed
      modifies this`consumed, sock, dst
      ensures BodyValid() && consumed == old(consumed) + k && k <= len
      ensures Holds(dst, off, off + k, requestLen + old(consumed) - off)
      ensures forall i :: 0 <= i < off || off + k <= i < dst.Length ==> dst[i] == old(dst[i])
      ensures !sock.broken && k == 0 ==> |stream| == requestLen + consumed
      ensures old(sock.broken) ==> sock.broken
      ensures old(Coming(len)) == k + if k == 0 then 0 else Coming(len - k)
    {
      k := sock.Pull(dst, off, len);
      consumed := consumed + k;
    }

    /** One round of that loop. */
    method PullMore(dst: array<byte>, off: nat, len: nat, ghost was: Text, ghost c: nat) returns (k: nat)
      requires Progress(dst, was, off, c) && 0 < len <= contentLen - consumed && off + len <= dst.Length
      requires dst != buf && dataLen <= requestLen + consumed
      modifies this`consumed, sock, dst
      ensures Progress(dst, was, off + k, c) && k <= len
      ensures !sock.broken && k == 0 ==> |stream| == requestLen + consumed
      ensures old(sock.broken) ==> sock.broken
      ensures old(Coming(len)) == k + if k == 0 then 0 else Coming(len - k)
    {
      k := PullInto(dst, off, len);
    }

    /** The second half: body bytes still to come from the socket. */
    method ReadSocket(dst: array<byte>, off: nat, len: nat, ghost was: Text, ghost c: nat) returns (n: nat)
      requires Progress(dst, was, off, c) && len <= contentLen - consumed && off + len <= dst.Length && dst != buf
      requires len > 0 ==> dataLen <= requestLen + consumed
      modifies this`consumed, sock, dst
      ensures Progress(dst, was, off + n, c) && n <= len
      ensures !sock.broken && n < len ==> |stream| == requestLen + consumed
      ensures old(sock.broken) ==> sock.broken
      ensures n == old(Coming(len))
      ensures len == 0 ==> sock.pending == old(sock.pending)
    {
      n := 0;
      while n < len
        invariant n <= len && Progress(dst, was, off + n, c)
        invariant len > 0 ==> dataLen <= requestLen + consumed
        invariant len == 0 ==> sock.pending == old(sock.pending)
        invariant old(sock.broken) ==> sock.broken
        invariant old(Coming(len)) == n + Coming(len - n)
        decreases len - n
      {
        var k := PullMore(dst, off + n, len - n, was, c);
        if k == 0 {
          break;
        }
        n := n + k;
      }
    }

    /** How much a read of that size gives: what the buffer holds and what the network delivers. */
    ghost function Readable(size: nat): nat
      reads this, sock
    {
      var want := Min(size, Max(0, contentLen - consumed));
      var held := Min(want, Max(0, dataLen - requestLen - consumed));
      held + Coming(want - held)
    }

    /** All that is left of the body, up to the size, when the connection did not stop before. */
    lemma ReadsToTheEnd(size: nat, c: nat, n: nat)
      requires BodyValid() && c < contentLen && consumed == c + n && n <= Min(size, contentLen - c)
      requires n < Min(size, contentLen - c) ==> |stream| == requestLen + consumed
      ensures n == Min(size, |Body()| - c)
    {
    }

    /** Both halves, for no more than is left of the body. */
    method ReadBoth(dst: array<byte>, size: nat) returns (n: nat)
      requires BodyValid() && consumed < contentLen && size <= dst.Length && dst != buf
      modifies this`consumed, sock, dst
      ensures Progress(dst, old(dst[..]), n, old(consumed)) && n <= size
      ensures !sock.broken ==> n == Min(size, |Body()| - old(consumed))
      ensures old(sock.broken) ==> sock.broken
      ensures n == old(Readable(size))
      ensures sock.pending != old(sock.pending) ==> Pulled() <= requestLen + contentLen
    {
      var len := Min(size, contentLen - consumed);
      n := ReadBuffered(dst, len);
      var more := ReadSocket(dst, n, len - n, old(dst[..]), old(consumed));
      n := n + more;
      if !sock.broken {
        ReadsToTheEnd(size, old(consumed), n);
      }
    }

    lemma ProgressIsBody(dst: array<byte>, was: Text, n: nat, c: nat)
      requires Progress(dst, was, n, c)
      ensures c + n <= |Body()| && dst[..n] == Body()[c..c + n]
    {
      SliceOfSlice(stream, requestLen, Min(|stream|, requestLen + Max(0, contentLen)), c, n);
    }

    /** Returns the next bytes of the body, first from the buffer, then from the socket, and
        never takes a byte past the body from the socket. */
    method Read(dst: array<byte>, size: nat) returns (nread: nat)
      requires BodyValid() && size <= dst.Length && dst != buf
      modifies this`consumed, sock, dst
      ensures BodyValid() && consumed == old(consumed) + nread && nread <= size
      ensures dst[..nread] == Body()[old(consumed)..consumed]
      ensures forall i :: nread <= i < dst.Length ==> dst[i] == old(dst[i])
      ensures !sock.broken ==> nread == Min(size, |Body()| - old(consumed))
      ensures old(sock.broken) ==> sock.broken
      ensures nread == old(Readable(size))
      ensures sock.pending != old(sock.pending) ==> Pulled() <= requestLen + contentLen
    {
      assert ReadAsserts(contentLen, consumed);
      nread := 0;
      if consumed < contentLen {
        nread := ReadBoth(dst, size);
        ProgressIsBody(dst, old(dst[..]), nread, old(consumed));
      }
    }

    /** One read into a buffer of its own. */
    method ReadPiece(size: nat) returns (piece: Text)
      requires BodyValid()
      modifies this`consumed, sock
      ensures BodyValid() && Body() == old(Body()) && old(consumed) <= consumed <= |Body()|
      ensures piece == Body()[old(consumed)..consumed]
      ensures !sock.broken ==> |piece| == Min(size, |Body()| - old(consumed))
      ensures old(sock.broken) ==> sock.broken
    {
      piece := ReadMeasured(size);
    }

    /** The same, and how much of it the network lets through. */
    method ReadMeasured(size: nat) returns (piece: Text)
      requires BodyValid()
      modifies this`consumed, sock
      ensures BodyValid() && Body() == old(Body()) && old(consumed) <= consumed <= |Body()|
      ensures piece == Body()[old(consumed)..consumed]
      ensures !sock.broken ==> |piece| == Min(size, |Body()| - old(consumed))
      ensures old(sock.broken) ==> sock.broken
      ensures |piece| == old(Readable(size))
    {
      var dst := new byte[size](_ => NUL);
      var n := Read(dst, size);
      piece := dst[..n];
    }

    /** Any sequence of body reads, one per size. Whatever the sizes, the pieces join to the next
        bytes of the body; on an unbroken connection to as many of them as were asked for, or to
        all that is left. */
    method ReadAll(sizes: seq<nat>) returns (got: Text)
      requires BodyValid()
      modifies this`consumed, sock
      ensures BodyValid() && old(consumed) <= consumed
      ensures got == Body()[old(consumed)..consumed]
      ensures !sock.broken ==> got == old(Body()[consumed..][..Min(Sum(sizes), |Body()| - consumed)])
    {
      got := [];
      ghost var body := Body();
      for i := 0 to |sizes|
        invariant BodyValid() && old(consumed) <= consumed <= |body| && Body() == body
        invariant got == body[old(consumed)..consumed]
        invariant !sock.broken ==>
                    consumed - old(consumed) == Min(Sum(sizes) - Sum(sizes[i..]), |body| - old(consumed))
      {
        assert sizes[i..][0] == sizes[i] && sizes[i..][1..] == sizes[i + 1..];
        ghost var from := consumed;
        var piece := ReadPiece(sizes[i]);
        assert body[old(consumed)..from] + body[from..consumed] == body[old(consumed)..consumed];
        got := got + piece;
      }
      assert sizes[|sizes|..] == [];
    }

    /** Where the bytes start that a discarded request leaves in the buffer. A length below -1 is cut
        to 32 bits and taken as it is. */
    function KeptFrom(): int
      reads this
    {
      requestLen + (if contentLen == -1 then 0
                    else if contentLen < dataLen - requestLen then CutToInt(contentLen)
                    else dataLen - requestLen)
    }

    /** The index is inside the buffered bytes for every length from -1 on; for one below, exactly
        when the cut length reaches back no further than the head and not past the buffered bytes. */
    lemma DiscardStaysInside()
      requires 0 < requestLen <= dataLen <= INT_MAX
      ensures 0 <= KeptFrom() <= dataLen <==>
                contentLen >= -1 || -requestLen <= CutToInt(contentLen) <= dataLen - requestLen
      ensures contentLen >= -1 ==> KeptFrom() == requestLen + Min(Max(0, contentLen), dataLen - requestLen)
      ensures -requestLen <= contentLen < -1 ==> KeptFrom() == requestLen + contentLen
    {
      if -INT_MAX <= contentLen <= INT_MAX {
        CutOfInt(contentLen);
      }
    }

    /** Moves what follows the current request to the front of the buffer, unless the index that it
        computes is outside the buffered bytes: what the source moves then is not in this model. */
    method Discard() returns (inside: bool)
      requires 0 < requestLen <= dataLen <= buf.Length && dataLen <= INT_MAX
      modifies this`dataLen, buf
      ensures inside <==> 0 <= old(KeptFrom()) <= old(dataLen)
      ensures inside ==> dataLen <= buf.Length && buf[..dataLen] == old(buf[..dataLen][KeptFrom()..])
    {
      var bufferedLen := dataLen - requestLen;
      var bodyLen;
      if contentLen == -1 {
        bodyLen := 0;
      } else if contentLen < bufferedLen {
        bodyLen := CutToInt(contentLen);
      } else {
        bodyLen := bufferedLen;
      }
      inside := 0 <= requestLen + bodyLen <= dataLen;
      if inside {
        dataLen := dataLen - (requestLen + bodyLen);
        forall i | 0 <= i < dataLen {
          buf[i] := buf[requestLen + bodyLen + i];
        }
      }
    }
  }

  /** The part of a stream that is the body of the request at its beginning. */
  function BodyOf(stream: Text, requestLen: nat, contentLen: int): Text
    requires requestLen <= |stream|
  {
    stream[requestLen..Min(|stream|, requestLen + Max(0, contentLen))]
  }

  /** The assertion at the start of every body read. */
  predicate ReadAsserts(contentLen: int, consumed: int) {
    (contentLen == -1 && consumed == 0) || consumed <= contentLen
  }

  const INT_MAX := 0x7FFF_FFFF

  /** The conversion of a 64-bit length to `int`. */
  function CutToInt(n: int): int {
    (n + INT_MAX + 1) % 0x1_0000_0000 - INT_MAX - 1
  }

  lemma CutOfInt(n: int)
    requires -INT_MAX - 1 <= n <= INT_MAX
    ensures CutToInt(n) == n
  {
  }

  function Sum(sizes: seq<nat>): nat {
    if sizes == [] then 0 else sizes[0] + Sum(sizes[1..])
  }
}
