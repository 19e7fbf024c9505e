/** How a connection finds the end of a request in its buffer and reads the body behind it. */
module HttpFraming {
  import opened Bytes
  import opened Sequences

  const CR: byte := 13
  const LF: byte := 10

  /** Control characters are refused; bytes from 128 on are let through. */
  predicate Malformed(c: byte) {
    !(32 <= c <= 126) && c != CR && c != LF && c < 128
  }

  /** By their codes: 0 to 9, 11, 12, 14 to 31 and 127. */
  lemma MalformedBytes(c: byte)
    ensures Malformed(c) <==> (c < 32 && c != 10 && c != 13) || c == 127
  {
  }

  /** What get_request_len finds at position i: -1, the length of the request, or 0 to go on. */
  function FoundAt(buf: seq<byte>, i: nat): (len: int)
    requires i + 1 < |buf|
    ensures -1 <= len <= |buf|
  {
    if Malformed(buf[i]) then -1
    else if buf[i] == LF && buf[i + 1] == LF then i + 2
    else if buf[i] == LF && i + 2 < |buf| && buf[i + 1] == CR && buf[i + 2] == LF then i + 3
    else 0
  }

  /** -1 if the request is malformed, 0 if its end is not in the buffer yet, and otherwise its length. */
  function RequestLen(buf: seq<byte>): (len: int)
    ensures -1 <= len <= |buf|
  {
    LenFrom(buf, 0)
  }

  function LenFrom(buf: seq<byte>, i: nat): (len: int)
    ensures -1 <= len <= |buf|
    decreases |buf| - i
  {
    if i + 1 >= |buf| then 0
    else if FoundAt(buf, i) != 0 then FoundAt(buf, i)
    else LenFrom(buf, i + 1)
  }

  method GetRequestLen(buf: array<byte>, bufLen: nat) returns (len: int)
    requires bufLen <= buf.Length
    ensures len == RequestLen(buf[..bufLen])
  {
    len := 0;
    var s, e := 0, bufLen - 1;
    while len <= 0 && s < e
      invariant 0 <= s <= bufLen && 0 <= len && (len == 0 || len == RequestLen(buf[..bufLen]))
      invariant len == 0 ==> RequestLen(buf[..bufLen]) == LenFrom(buf[..bufLen], s)
      decreases e - s
    {
      if !(32 <= buf[s] <= 126) && buf[s] != CR && buf[s] != LF && buf[s] < 128 {
        len := -1;
        break;
      } else if buf[s] == LF && buf[s + 1] == LF {
        len := s + 2;
      } else if buf[s] == LF && s + 1 < e && buf[s + 1] == CR && buf[s + 2] == LF {
        len := s + 3;
      }
      s := s + 1;
    }
  }

  // ---------- what the length means ----------

  /** The blank line that ends a request ends after n bytes. */
  predicate EndsWithBlankLine(buf: seq<byte>, n: int) {
    0 <= n <= |buf| &&
    ((n >= 2 && buf[n - 2] == LF && buf[n - 1] == LF) ||
     (n >= 3 && buf[n - 3] == LF && buf[n - 2] == CR && buf[n - 1] == LF))
  }

  /** The position where the scan stops: the first with a finding, or the last byte. */
  lemma {:induction false} ScanStops(buf: seq<byte>, i: nat) returns (k: nat)
    ensures i <= k && forall j :: i <= j < k ==> j + 1 < |buf| && FoundAt(buf, j) == 0
    ensures LenFrom(buf, i) == if k + 1 < |buf| then FoundAt(buf, k) else 0
    ensures k + 1 < |buf| ==> FoundAt(buf, k) != 0
    decreases |buf| - i
  {
    hide FoundAt;
    k := i;
    if i + 1 < |buf| && FoundAt(buf, i) == 0 {
      k := ScanStops(buf, i + 1);
    }
  }

  /** A blank line is found at the position where it starts. */
  lemma BlankLineIsFound(buf: seq<byte>, n: int)
    requires EndsWithBlankLine(buf, n)
    ensures n >= 2 && (FoundAt(buf, n - 2) == n || (n >= 3 && FoundAt(buf, n - 3) == n))
  {
  }

  lemma FoundIsBlankLine(buf: seq<byte>, i: nat)
    requires i + 1 < |buf|
    ensures FoundAt(buf, i) == -1 <==> Malformed(buf[i])
    ensures FoundAt(buf, i) > 0 ==> i + 2 <= FoundAt(buf, i) <= i + 3 && EndsWithBlankLine(buf, FoundAt(buf, i))
  {
  }

  lemma BlankLineIsWellFormed(buf: seq<byte>, i: nat)
    requires i + 1 < |buf|
    ensures forall j :: i <= j < FoundAt(buf, i) ==> !Malformed(buf[j])
  {
  }

  /** Blank lines end in the order in which they start. */
  lemma BlankLinesInOrder(buf: seq<byte>, i: nat, n: int)
    requires i + 1 < |buf| && FoundAt(buf, i) > 0 && EndsWithBlankLine(buf, n) && n < FoundAt(buf, i)
    ensures exists j :: 0 <= j < i && FoundAt(buf, j) != 0
  {
    BlankLineIsFound(buf, n);
    var j := if FoundAt(buf, n - 2) == n then n - 2 else n - 3;
    assert FoundAt(buf, j) == n;
    assert j != i;
    assert j < i;
  }

  /** The end of a request is the first place where a blank line ends, and nothing malformed comes before it. */
  lemma PositiveLenMeans(buf: seq<byte>)
    requires RequestLen(buf) > 0
    ensures EndsWithBlankLine(buf, RequestLen(buf))
    ensures forall n :: n < RequestLen(buf) ==> !EndsWithBlankLine(buf, n)
    ensures forall i :: 0 <= i < RequestLen(buf) ==> !Malformed(buf[i])
  {
    hide FoundAt, EndsWithBlankLine, Malformed;
    var k := ScanStops(buf, 0);
    FoundIsBlankLine(buf, k);
    BlankLineIsWellFormed(buf, k);
    forall n | n < RequestLen(buf)
      ensures !EndsWithBlankLine(buf, n)
    {
      if EndsWithBlankLine(buf, n) {
        BlankLinesInOrder(buf, k, n);
      }
    }
    forall i | 0 <= i < RequestLen(buf)
      ensures !Malformed(buf[i])
    {
      if i < k {
        FoundIsBlankLine(buf, i);
      }
    }
  }

  /** A request is malformed when a malformed byte comes before any blank line has ended. */
  lemma MalformedMeans(buf: seq<byte>)
    ensures RequestLen(buf) == -1 <==>
            exists i :: 0 <= i < |buf| - 1 && Malformed(buf[i]) && forall n :: n <= i + 1 ==> !EndsWithBlankLine(buf, n)
  {
    hide FoundAt, EndsWithBlankLine, Malformed;
    var k := ScanStops(buf, 0);
    if RequestLen(buf) == -1 {
      FoundIsBlankLine(buf, k);
      forall n | n <= k + 1
        ensures !EndsWithBlankLine(buf, n)
      {
        if EndsWithBlankLine(buf, n) {
          BlankLineIsFound(buf, n);
        }
      }
      assert k < |buf| - 1 && Malformed(buf[k]);
      assert forall n :: n <= k + 1 ==> !EndsWithBlankLine(buf, n);
    }
    if i :| 0 <= i < |buf| - 1 && Malformed(buf[i]) && forall n :: n <= i + 1 ==> !EndsWithBlankLine(buf, n) {
      FoundIsBlankLine(buf, i);
      FoundIsBlankLine(buf, k);
      BlankLineIsWellFormed(buf, k);
    }
  }

  /** The scan goes on as long as there is neither a blank line nor a malformed byte. */
  lemma ZeroLenMeans(buf: seq<byte>)
    ensures RequestLen(buf) == 0 <==>
            (forall n :: !EndsWithBlankLine(buf, n)) && forall i :: 0 <= i < |buf| - 1 ==> !Malformed(buf[i])
  {
    hide FoundAt, EndsWithBlankLine, Malformed;
    var k := ScanStops(buf, 0);
    if k + 1 < |buf| {
      FoundIsBlankLine(buf, k);
    } else {
      forall i | 0 <= i < |buf| - 1
        ensures !Malformed(buf[i])
      {
        FoundIsBlankLine(buf, i);
      }
      forall n
        ensures !EndsWithBlankLine(buf, n)
      {
        if EndsWithBlankLine(buf, n) {
          BlankLineIsFound(buf, n);
        }
      }
    }
  }

  // ---------- more bytes do not change the answer ----------

  lemma FoundStays(buf: seq<byte>, more: seq<byte>, i: nat)
    requires i + 1 < |buf| && (FoundAt(buf, i) != 0 || i + 2 < |buf|)
    ensures FoundAt(buf + more, i) == FoundAt(buf, i)
  {
  }

  lemma {:induction false} LenFromStays(buf: seq<byte>, more: seq<byte>, i: nat)
    requires LenFrom(buf, i) != 0
    ensures LenFrom(buf + more, i) == LenFrom(buf, i)
    decreases |buf| - i
  {
    hide FoundAt;
    if FoundAt(buf, i) != 0 {
      FoundStays(buf, more, i);
    } else {
      assert i + 2 < |buf|;
      FoundStays(buf, more, i);
      LenFromStays(buf, more, i + 1);
    }
  }

  /** Once the answer is not 0, it is the same whatever bytes follow, stale or not. */
  lemma RequestLenStays(buf: seq<byte>, more: seq<byte>)
    requires RequestLen(buf) != 0
    ensures RequestLen(buf + more) == RequestLen(buf)
  {
    LenFromStays(buf, more, 0);
  }

  // ---------- the socket ----------

  /** Some read ends in an error. */
  predicate Fails(sizes: seq<int>) {
    exists k :: k in sizes && k < 0
  }

  /** How many bytes a read of up to len bytes hands out, or an error. */
  function Pulled(stream: seq<byte>, sizes: seq<int>, len: nat): (n: int)
    ensures n <= |stream| && n <= len
  {
    if sizes != [] && sizes[0] < 0 then sizes[0]
    else
      var n := if sizes != [] && 0 < sizes[0] < |stream| then sizes[0] else |stream|;
      if len < n then len else n
  }

  function SizesLeft(sizes: seq<int>): seq<int> {
    if sizes == [] then [] else sizes[1..]
  }

  /**
   The other end of pull: stream holds the bytes still to come before the peer closes, and sizes the
   number of bytes each read hands out, a negative number standing for an error.
   */
  class Socket {
    var stream: seq<byte>
    var sizes: seq<int>

    constructor (stream: seq<byte>, sizes: seq<int>)
      ensures this.stream == stream && this.sizes == sizes
    {
      this.stream, this.sizes := stream, sizes;
    }

    /** Up to len bytes into dest; 0 when the peer has closed, negative on an error. */
    method Pull(dest: array<byte>, at: nat, len: nat) returns (n: int)
      requires 0 < len && at + len <= dest.Length
      modifies this, dest
      ensures n == Pulled(old(stream), old(sizes), len) && sizes == SizesLeft(old(sizes))
      ensures n <= len && n <= |old(stream)| && (n == 0 ==> old(stream) == [])
      ensures n < 0 ==> stream == old(stream) && dest[..] == old(dest[..])
      ensures n < 0 ==> Fails(old(sizes))
      ensures n >= 0 ==>
        stream == old(stream)[n..] &&
        dest[..] == old(dest[..at]) + old(stream)[..n] + old(dest[at + n..])
      ensures Fails(sizes) ==> Fails(old(sizes))
    {
      n := |stream|;
      if sizes != [] {
        FailsLater(sizes);
        if sizes[0] < 0 {
          n := sizes[0];
          sizes := sizes[1..];
          return;
        }
        n := if 0 < sizes[0] < n then sizes[0] else n;
        sizes := sizes[1..];
      }
      n := if len < n then len else n;
      forall i | 0 <= i < n {
        dest[at + i] := stream[i];
      }
      stream := stream[n..];
    }
  }

  lemma FailsLater(sizes: seq<int>)
    requires sizes != []
    ensures sizes[0] < 0 || Fails(sizes[1..]) ==> Fails(sizes)
  {
    assert sizes[0] in sizes;
    if Fails(sizes[1..]) {
      var k :| k in sizes[1..] && k < 0;
      assert k in sizes;
    }
  }

  /** All that can ever get into a buffer of the given size. */
  function Fill(buffered: seq<byte>, stream: seq<byte>, size: nat): seq<byte> {
    (buffered + stream)[..Min(|buffered| + |stream|, size)]
  }

  /** What is in a buffer of the given size when reads have gone on until the end of a request is in it. */
  function ReadTo(buffered: seq<byte>, stream: seq<byte>, sizes: seq<int>, size: nat): (all: seq<byte>)
    ensures buffered <= all
    decreases size - |buffered|
  {
    if |buffered| >= size || RequestLen(buffered) != 0 then buffered
    else
      var n := Pulled(stream, sizes, size - |buffered|);
      if n <= 0 then buffered else ReadTo(buffered + stream[..n], stream[n..], SizesLeft(sizes), size)
  }

  /** One read brings in all there is, if it fits. */
  lemma AllAtOnce(buffered: seq<byte>, stream: seq<byte>, size: nat)
    requires RequestLen(buffered) == 0 && |buffered + stream| <= size
    ensures ReadTo(buffered, stream, [], size) == buffered + stream
  {
    hide RequestLen;
    assert stream[..|stream|] == stream && stream[|stream|..] == [];
  }

  /** One read ends the reading if it brings in the end of a request. */
  lemma FirstReadEnough(stream: seq<byte>, sizes: seq<int>, size: nat)
    requires sizes != [] && 0 < sizes[0] < |stream| && sizes[0] <= size && RequestLen(stream[..sizes[0]]) != 0
    ensures ReadTo([], stream, sizes, size) == stream[..sizes[0]]
  {
    hide RequestLen;
    NothingRead();
    assert [] + stream[..sizes[0]] == stream[..sizes[0]];
  }

  lemma NothingRead()
    ensures RequestLen([]) == 0
  {
  }

  /** Reads until the end of a request is in the buffer. */
  method ReadRequest(socket: Socket, buf: array<byte>, buffered: nat) returns (requestLen: int, nread: nat)
    requires buffered <= buf.Length
    modifies socket, buf
    ensures buffered <= nread <= buf.Length
    ensures buf[..nread] + socket.stream == old(buf[..buffered] + socket.stream)
    ensures buf[..nread] == ReadTo(old(buf[..buffered]), old(socket.stream), old(socket.sizes), buf.Length)
    ensures !Fails(old(socket.sizes)) ==>
      requestLen == RequestLen(Fill(old(buf[..buffered]), old(socket.stream), buf.Length))
    ensures requestLen > 0 ==> requestLen == RequestLen(buf[..nread])
    ensures Fails(socket.sizes) ==> Fails(old(socket.sizes))
  {
    hide RequestLen, ReadTo, Pulled, SizesLeft, Fails;
    ghost var all := buf[..buffered] + socket.stream;
    ghost var target := ReadTo(buf[..buffered], socket.stream, socket.sizes, buf.Length);
    nread := buffered;
    var n := 1;
    requestLen := GetRequestLen(buf, nread);
    while nread < buf.Length && requestLen == 0 && n > 0
      invariant buffered <= nread <= buf.Length && requestLen == RequestLen(buf[..nread])
      invariant buf[..nread] + socket.stream == all
      invariant n > 0 ==> target == ReadTo(buf[..nread], socket.stream, socket.sizes, buf.Length)
      invariant n <= 0 ==> target == buf[..nread]
      invariant n == 0 ==> socket.stream == []
      invariant n < 0 || Fails(socket.sizes) ==> Fails(old(socket.sizes))
      decreases buf.Length - nread, n
    {
      ghost var was, left := buf[..nread], socket.stream;
      ReadMore(was, left, socket.sizes, buf.Length);
      n := socket.Pull(buf, nread, buf.Length - nread);
      if n > 0 {
        assert buf[..nread + n] == was + left[..n];
        assert (was + left[..n]) + left[n..] == was + left;
        nread := nread + n;
        requestLen := GetRequestLen(buf, nread);
      } else {
        assert buf[..nread] == was;
      }
    }
    if n > 0 {
      ReadMore(buf[..nread], socket.stream, socket.sizes, buf.Length);
    }
    if n < 0 {
      return -1, nread;
    }
    FillDecides(buf[..nread], socket.stream, buf.Length, all);
  }

  lemma ReadMore(buffered: seq<byte>, stream: seq<byte>, sizes: seq<int>, size: nat)
    ensures ReadTo(buffered, stream, sizes, size) ==
            if |buffered| >= size || RequestLen(buffered) != 0 then buffered
            else
              var n := Pulled(stream, sizes, size - |buffered|);
              if n <= 0 then buffered else ReadTo(buffered + stream[..n], stream[n..], SizesLeft(sizes), size)
  {
  }

  lemma FillDecides(buffered: seq<byte>, stream: seq<byte>, size: nat, all: seq<byte>)
    requires |buffered| <= size && buffered + stream == all
    ensures Fill(buffered, stream, size) == all[..Min(|all|, size)]
    ensures RequestLen(buffered) != 0 || |buffered| == size || stream == [] ==>
              RequestLen(all[..Min(|all|, size)]) == RequestLen(buffered)
  {
    hide RequestLen;
    var more := stream[..Min(|all|, size) - |buffered|];
    assert all[..Min(|all|, size)] == buffered + more;
    if RequestLen(buffered) != 0 {
      RequestLenStays(buffered, more);
    } else if |buffered| == size || stream == [] {
      assert buffered + more == buffered;
    }
  }

  // ---------- the body ----------

  /** Where the bytes behind a request go on, with b of them in the buffer and some of them read. */
  function NextStart(contentLen: int, b: nat, consumed: nat): nat {
    if 0 <= contentLen <= b then contentLen else Max(b, consumed)
  }

  /** A connection behind the headers of a request: the first requestLen bytes of the buffer. */
  class Connection {
    const buf: array<byte>
    const socket: Socket
    var requestLen: nat
    var dataLen: nat
    var contentLen: int
    var consumed: nat
    ghost var body: seq<byte>  // the buffered tail and the socket bytes behind it, when the request began

    ghost predicate Valid()
      reads this, buf, socket
      ensures Valid() ==> consumed <= |body| && consumed <= Max(contentLen, 0)
    {
      requestLen <= dataLen <= buf.Length && consumed <= |body| &&
      (contentLen >= 0 ==> consumed <= contentLen) && (contentLen < 0 ==> consumed == 0) &&
      dataLen - requestLen <= |body| && buf[requestLen..dataLen] == body[..dataLen - requestLen] &&
      socket.stream == body[Max(dataLen - requestLen, consumed)..]
    }

    constructor (buf: array<byte>, socket: Socket, requestLen: nat, dataLen: nat, contentLen: int)
      requires requestLen <= dataLen <= buf.Length
      ensures Valid() && consumed == 0 && body == buf[requestLen..dataLen] + socket.stream
      ensures this.buf == buf && this.socket == socket && this.contentLen == contentLen
      ensures this.requestLen == requestLen && this.dataLen == dataLen
    {
      this.buf, this.socket := buf, socket;
      this.requestLen, this.dataLen, this.contentLen, consumed := requestLen, dataLen, contentLen, 0;
      body := buf[requestLen..dataLen] + socket.stream;
    }

    /** How many bytes of the body mg_read may still hand out. */
    function Left(): nat
      reads this
    {
      if consumed < contentLen then contentLen - consumed else 0
    }

    /**
     mg_read: hands out the next bytes of the body, from the buffer first.  It takes from the socket
     no byte that it does not hand out, and less than it was asked for only at the end of the body or
     of the stream.
     */
    method Read(dst: array<byte>, len: nat) returns (nread: int)
      requires Valid() && len <= dst.Length && dst != buf
      modifies this`consumed, socket, dst
      ensures Valid() && consumed >= old(consumed)
      ensures nread >= 0 ==>
        nread <= len && consumed == old(consumed) + nread && dst[..nread] == body[old(consumed)..consumed]
      ensures nread >= 0 && nread < len ==> Left() == 0 || consumed == |body|
      ensures nread < 0 || Fails(socket.sizes) ==> Fails(old(socket.sizes))
    {
      nread := 0;
      if consumed < contentLen {
        var want := if contentLen - consumed < len then contentLen - consumed else len;
        nread := ReadBuffered(dst, want);
        nread := ReadSocket(dst, nread, want);
      }
    }

    lemma BufferedPart(n: nat)
      requires Valid() && consumed + n <= dataLen - requestLen
      ensures buf[requestLen + consumed..requestLen + consumed + n] == body[consumed..consumed + n]
    {
      PartOfPrefix(body, dataLen - requestLen, consumed, consumed + n);
      PartOfPart(buf[..], requestLen, dataLen, consumed, consumed + n);
    }

    /** The part of mg_read that copies from the buffer. */
    method ReadBuffered(dst: array<byte>, want: nat) returns (copied: nat)
      requires Valid() && want <= dst.Length && dst != buf && want <= Left()
      modifies this`consumed, dst
      ensures Valid() && copied <= want && consumed == old(consumed) + copied
      ensures dst[..copied] == body[old(consumed)..consumed]
      ensures copied < want ==> dataLen - requestLen <= consumed
    {
      copied := 0;
      var start := requestLen + consumed;
      var bufferedLen := dataLen - start;
      if bufferedLen > 0 {
        if want < bufferedLen {
          bufferedLen := want;
        }
        BufferedPart(bufferedLen);
        MemCpy(dst, buf, start, bufferedLen);
        consumed := consumed + bufferedLen;
        copied := bufferedLen;
      }
    }

    /** The loop of mg_read over reads from the socket. */
    method ReadSocket(dst: array<byte>, copied: nat, want: nat) returns (nread: int)
      requires Valid() && copied <= want <= dst.Length && dst != buf && want - copied <= Left()
      requires copied < want ==> dataLen - requestLen <= consumed
      requires copied <= consumed && dst[..copied] == body[consumed - copied..consumed]
      modifies this`consumed, socket, dst
      ensures Valid() && consumed >= old(consumed)
      ensures nread >= 0 ==>
        copied <= nread <= want && consumed == old(consumed) - copied + nread &&
        dst[..nread] == body[old(consumed) - copied..consumed]
      ensures nread >= 0 && nread < want ==> consumed == |body|
      ensures nread < 0 || Fails(socket.sizes) ==> Fails(old(socket.sizes))
    {
      hide Valid, Fails;
      var n;
      nread := copied;
      ghost var start := consumed - copied;
      while nread < want
        invariant copied <= nread <= want && consumed == start + nread && Valid()
        invariant want - nread <= Left()
        invariant nread < want ==> dataLen - requestLen <= consumed
        invariant dst[..nread] == body[start..consumed]
        invariant Fails(socket.sizes) ==> Fails(old(socket.sizes))
        decreases want - nread
      {
        n := PullBody(dst, nread, want - nread);
        if n < 0 {
          return n;
        } else if n == 0 {
          break;
        }
        nread := nread + n;
      }
    }

    /** One read from the socket, behind what is in dst already. */
    method PullBody(dst: array<byte>, at: nat, len: nat) returns (n: int)
      requires Valid() && 0 < len && at + len <= dst.Length && dst != buf && len <= Left()
      requires dataLen - requestLen <= consumed && at <= consumed && dst[..at] == body[consumed - at..consumed]
      modifies this`consumed, socket, dst
      ensures Valid() && n <= len && consumed == old(consumed) + (if n < 0 then 0 else n) <= |body|
      ensures n >= 0 ==> dst[..at + n] == body[old(consumed) - at..consumed]
      ensures n == 0 ==> consumed == |body|
      ensures n < 0 || Fails(socket.sizes) ==> Fails(old(socket.sizes))
    {
      hide Fails, Pulled, SizesLeft;
      n := socket.Pull(dst, at, len);
      if n > 0 {
        PartsJoin(body, consumed - at, consumed, n);
        assert dst[..at + n] == body[consumed - at..consumed] + body[consumed..][..n];
        consumed := consumed + n;
      }
    }

    /** Reads of any sizes: together they return the bytes of the body in order, and no other byte. */
    method ReadEach(lens: seq<nat>) returns (all: seq<byte>, failed: bool)
      requires Valid()
      modifies this`consumed, socket
      ensures Valid() && old(consumed) <= consumed <= Max(contentLen, 0)
      ensures !failed ==> all == body[old(consumed)..consumed]
      ensures failed ==> Fails(old(socket.sizes))
    {
      hide Valid, Fails;
      all, failed := [], false;
      for i := 0 to |lens|
        invariant Valid() && old(consumed) <= consumed && all == body[old(consumed)..consumed]
        invariant Fails(socket.sizes) ==> Fails(old(socket.sizes))
      {
        var dst := new byte[lens[i]];
        var n := Read(dst, lens[i]);
        if n < 0 {
          return all, true;
        }
        all := all + dst[..n];
      }
    }

    /**
     The end of a request: its bytes leave the buffer, and what follows moves to the front.  What is left
     is what follows the body exactly if the body was all in the buffer or has been read to its end.
     */
    method Discard()
      requires Valid()
      modifies this`dataLen, buf
      ensures dataLen <= old(dataLen) && buf[dataLen..] == old(buf[..])[dataLen..]
      ensures contentLen < 0 || contentLen > old(dataLen) - requestLen ==> dataLen == 0
      ensures 0 <= contentLen <= old(dataLen) - requestLen ==> old(dataLen) == requestLen + contentLen + dataLen
      ensures NextStart(contentLen, old(dataLen) - requestLen, consumed) <= |body|
      ensures buf[..dataLen] + socket.stream == body[NextStart(contentLen, old(dataLen) - requestLen, consumed)..]
      ensures 0 <= contentLen <= |body| ==>
        (buf[..dataLen] + socket.stream == body[contentLen..] <==>
          contentLen <= old(dataLen) - requestLen || consumed == contentLen)
    {
      var discardLen := if contentLen >= 0 && requestLen + contentLen < dataLen then requestLen + contentLen else dataLen;
      ghost var rest := buf[discardLen..dataLen];
      ghost var b, i := dataLen - requestLen, discardLen - requestLen;
      PartOfPart(buf[..], requestLen, dataLen, i, b);
      assert rest == body[..b][i..b];
      PartOfPrefix(body, b, i, b);
      forall k | 0 <= k < dataLen - discardLen {
        buf[k] := buf[discardLen + k];
      }
      dataLen := dataLen - discardLen;
      assert buf[..dataLen] == rest;
      TailOf(body, i, b, Max(b, consumed));
    }
  }

  /** What is left of s when a part up to j and everything from m on are put together. */
  lemma TailOf(s: seq<byte>, i: nat, j: nat, m: nat)
    requires i <= j <= m <= |s|
    ensures j == m ==> s[i..j] + s[m..] == s[i..]
    ensures i == j ==> s[i..j] + s[m..] == s[m..]
    ensures forall k: nat :: k <= |s| && s[k..] == s[m..] ==> k == m
  {
    forall k: nat | k <= |s| && s[k..] == s[m..]
      ensures k == m
    {
      assert |s[k..]| == |s| - k && |s[m..]| == |s| - m;
    }
  }

  method MemCpy(dst: array<byte>, src: array<byte>, start: nat, n: nat)
    requires n <= dst.Length && start + n <= src.Length && dst != src
    modifies dst
    ensures dst[..n] == src[start..start + n]
  {
    forall i | 0 <= i < n {
      dst[i] := src[start + i];
    }
  }

  lemma PartOfPart(s: seq<byte>, i: nat, j: nat, p: nat, q: nat)
    requires i <= j <= |s| && p <= q <= j - i
    ensures s[i..j][p..q] == s[i + p..i + q]
  {
    var a, b := s[i..j][p..q], s[i + p..i + q];
    forall k | 0 <= k < q - p
      ensures a[k] == b[k]
    {
      assert a[k] == s[i..j][p + k] == s[i + (p + k)];
    }
  }

  lemma PartsJoin(s: seq<byte>, i: nat, j: nat, n: nat)
    requires i <= j && j + n <= |s|
    ensures s[i..j] + s[j..][..n] == s[i..j + n] && s[j..][n..] == s[j + n..]
  {
  }

  lemma PartOfPrefix(s: seq<byte>, n: nat, i: nat, j: nat)
    requires i <= j <= n <= |s|
    ensures s[..n][i..j] == s[i..j]
  {
  }

  function Max(a: int, b: int): int {
    if a >= b then a else b
  }
}
