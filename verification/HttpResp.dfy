/**
 The response body readers: chunked transfer coding and declared lengths, over a
 stream split by the socket in any way and re-entered at any point.
 */
module HttpResp {
  import opened Bytes
  import opened HttpTrans

  const CRLF: seq<Byte> := [13, 10]

  // ---- chunk sizes

  predicate IsHex(c: Byte) {
    48 <= c <= 57 || 65 <= c <= 70 || 97 <= c <= 102
  }

  function HexDigit(c: Byte): nat
    requires IsHex(c)
  {
    if c >= 97 then c - 0x57 else if c >= 65 then c + 32 - 0x57 else c - 0x30
  }

  /** The number of hexadecimal digits the text starts with. */
  function HexPrefix(s: seq<Byte>): (n: nat)
    ensures n <= |s| && forall i :: 0 <= i < n ==> IsHex(s[i])
    ensures n < |s| ==> !IsHex(s[n])
  {
    if s != [] && IsHex(s[0]) then 1 + HexPrefix(s[1..]) else 0
  }

  function HexNumber(s: seq<Byte>): nat
    requires forall i :: 0 <= i < |s| ==> IsHex(s[i])
  {
    if s == [] then 0 else HexNumber(s[..|s| - 1]) * 16 + HexDigit(s[|s| - 1])
  }

  function Pow16(k: nat): nat {
    if k == 0 then 1 else 16 * Pow16(k - 1)
  }

  /** The size a chunk header line gives, whatever follows the digits; None without digits. */
  function ChunkSize(line: seq<Byte>): Option<nat> {
    var n := HexPrefix(line);
    if n == 0 then None else Some(HexNumber(line[..n]))
  }

  lemma PlaceValue(a: nat, d: nat, k: nat)
    ensures (a * 16 + d) * Pow16(k) == a * Pow16(k + 1) + d * Pow16(k)
  {
    assert Pow16(k + 1) == 16 * Pow16(k);
    assert (a * 16 + d) * Pow16(k) == a * 16 * Pow16(k) + d * Pow16(k);
  }

  lemma NextDigit(line: seq<Byte>, i: nat)
    requires i < |line| && forall k :: 0 <= k <= i ==> IsHex(line[k])
    ensures HexNumber(line[..i + 1]) == HexNumber(line[..i]) * 16 + HexDigit(line[i])
  {
    assert line[..i + 1][..i] == line[..i];
  }

  lemma NoDigits()
    ensures HexNumber([]) == 0 && Pow16(0) == 1
  {}

  /** The two loops of read_chunk over a header line; -1 stands for the line without a size. */
  method ReadChunkSize(line: seq<Byte>) returns (size: int)
    ensures size == if ChunkSize(line).Some? then ChunkSize(line).value else -1
  {
    var len := 0;
    while len < |line| && IsHex(line[len])
      invariant 0 <= len <= |line| && HexPrefix(line) == len + HexPrefix(line[len..])
    {
      assert line[len..][1..] == line[len + 1..];
      len := len + 1;
    }
    if len == 0 {
      return -1;
    }
    hide HexPrefix, HexNumber, Pow16, HexDigit;
    NoDigits();
    size := 0;
    assert line[..0] == [];
    var i, j := 0, len - 1;
    while i < len
      invariant 0 <= i <= len && j == len - 1 - i
      invariant size == HexNumber(line[..i]) * Pow16(len - i)
    {
      NextDigit(line, i);
      PlaceValue(HexNumber(line[..i]), HexDigit(line[i]), j);
      size := size + HexDigit(line[i]) * Pow16(j);
      i, j := i + 1, j - 1;
    }
  }

  // ---- chunked bodies

  /**
   The body a stream codes, given the size of a chunk whose header is already gone, and what follows the last header.
   */
  function Decode(chunkLen: nat, s: seq<Byte>): (r: Option<(seq<Byte>, seq<Byte>)>)
    decreases |s|, chunkLen
  {
    if chunkLen > 0 then
      if |s| < chunkLen + 2 then None else Prepend(s[..chunkLen], Decode(0, s[chunkLen + 2..]))
    else
      match FindPatt(s, CRLF, 0)
      case None => None
      case Some(i) =>
        match ChunkSize(s[..i])
        case None => None
        case Some(n) => if n == 0 then Some(([], s[i + 2..])) else Decode(n, s[i + 2..])
  }

  function Prepend(a: seq<Byte>, r: Option<(seq<Byte>, seq<Byte>)>): Option<(seq<Byte>, seq<Byte>)> {
    match r
    case None => None
    case Some((body, rest)) => Some((a + body, rest))
  }

  lemma PrependTwice(a: seq<Byte>, b: seq<Byte>, r: Option<(seq<Byte>, seq<Byte>)>)
    ensures Prepend(a, Prepend(b, r)) == Prepend(a + b, r)
  {
    if r.Some? {
      assert a + (b + r.value.0) == a + b + r.value.0;
    }
  }

  lemma PrependNothing(r: Option<(seq<Byte>, seq<Byte>)>)
    ensures Prepend([], r) == r
  {
    assert r.Some? ==> [] + r.value.0 == r.value.0;
  }

  /** What the unread part of the stream still decodes to. */
  ghost function Remaining(conn: Conn): Option<(seq<Byte>, seq<Byte>)>
    requires conn.Valid() && conn.chunkLen >= 0
    reads conn, conn.ioBuf, conn.sock
  {
    Decode(conn.chunkLen, conn.Stream())
  }

  lemma DecodeHeader(s: seq<Byte>, i: nat)
    requires FindPatt(s, CRLF, 0) == Some(i)
    ensures i + 2 <= |s|
    ensures Decode(0, s) ==
            match ChunkSize(s[..i])
            case None => None
            case Some(n) => if n == 0 then Some(([], s[i + 2..])) else Decode(n, s[i + 2..])
  {
    hide FindPatt, ChunkSize;
    assert MatchAt(s, CRLF, i);
  }

  lemma DecodeCut(s: seq<Byte>)
    requires FindPatt(s, CRLF, 0) == None
    ensures Decode(0, s) == None
  {
    hide FindPatt;
  }

  /** The line end in the filled part of the buffer is the first one of the whole stream. */
  lemma LineInStream(filled: seq<Byte>, pending: seq<Byte>, i: nat)
    requires FindPatt(filled, CRLF, 0) == Some(i)
    ensures i + 2 <= |filled|
    ensures FindPatt(filled + pending, CRLF, 0) == Some(i)
    ensures (filled + pending)[..i] == filled[..i] && (filled + pending)[i + 2..] == filled[i + 2..] + pending
  {
    FindPattExtends(filled, pending, CRLF);
  }

  /** The first half of read_chunk: fill the buffer up to a line end, take the size, drop the line. */
  method ReadChunkHeader(conn: Conn) returns (rv: Status)
    requires conn.Valid() && !conn.sock.failed && conn.ioLeft >= 0 && conn.chunkLen == 0
    modifies conn, conn.ioBuf, conn.sock
    ensures conn.Valid() && (conn.ioBuf == old(conn.ioBuf) || fresh(conn.ioBuf))
    ensures rv != Err ==> conn.ioLeft >= 0 && conn.chunkLen >= 0
    ensures rv == NotDone ==>
              conn.async && conn.sock.Budget() < old(conn.sock.Budget()) && Remaining(conn) == old(Remaining(conn))
    ensures rv == Done && conn.chunkLen > 0 ==> Remaining(conn) == old(Remaining(conn))
    ensures rv == Done && conn.chunkLen == 0 ==> old(Remaining(conn)) == Some(([], conn.Stream()))
    ensures rv == Err ==> conn.sock.failed || old(Remaining(conn)) == None
    ensures rv != Err ==> !conn.sock.failed
    ensures |conn.Stream()| <= old(|conn.Stream()|) && conn.sock.Budget() <= old(conn.sock.Budget())
  {
    hide Decode, ChunkSize, FindPatt;
    var patt := conn.BufHasPatt(CRLF);
    while patt.None?
      invariant conn.Valid() && (conn.ioBuf == old(conn.ioBuf) || fresh(conn.ioBuf))
      invariant conn.ioLeft >= 0 && conn.chunkLen == 0 && conn.Stream() == old(conn.Stream())
      invariant patt == FindPatt(conn.Contents(), CRLF, 0)
      invariant !conn.sock.failed && conn.sock.Budget() <= old(conn.sock.Budget())
      decreases conn.sock.Budget()
    {
      rv := conn.ReadIntoBuf();
      if rv == Err {
        return;
      }
      if rv == Done && conn.lastRead == 0 {
        assert conn.Stream() == conn.Contents();
        DecodeCut(conn.Stream());
        return Err;
      }
      if conn.async && rv == NotDone {
        return;
      }
      patt := conn.BufHasPatt(CRLF);
    }
    var end := patt.value;
    LineInStream(conn.Contents(), conn.sock.pending, end);
    DecodeHeader(conn.Stream(), end);
    assert conn.ioBuf[..end] == conn.Contents()[..end];
    var size := ReadChunkSize(conn.ioBuf[..end]);
    if size == -1 {
      conn.chunkLen := -1;
      return Err;
    }
    conn.chunkLen := conn.chunkLen + size;
    conn.BufClip(end + 2);
    rv := Done;
  }

  lemma DecodeShort(n: nat, s: seq<Byte>)
    requires 0 < n && |s| < n + 2
    ensures Decode(n, s) == None
  {}

  lemma DecodeChunk(n: nat, s: seq<Byte>)
    requires 0 < n && n + 2 <= |s|
    ensures Decode(n, s) == Prepend(s[..n], Decode(0, s[n + 2..]))
  {
    hide FindPatt, ChunkSize;
  }

  /** The second half of read_chunk: fill the buffer up to the end of the chunk and its line end. */
  method FillChunk(conn: Conn) returns (rv: Status)
    requires conn.Valid() && !conn.sock.failed && conn.chunkLen > 0
    modifies conn, conn.ioBuf, conn.sock
    ensures conn.Valid() && (conn.ioBuf == old(conn.ioBuf) || fresh(conn.ioBuf))
    ensures conn.chunkLen == old(conn.chunkLen) && conn.Stream() == old(conn.Stream())
    ensures rv == NotDone ==> conn.async && conn.sock.Budget() < old(conn.sock.Budget()) && conn.ioLeft >= 0
    ensures rv == Done ==> conn.ioBufAlloc >= conn.chunkLen + 2
    ensures rv == Err ==> conn.sock.failed || old(Remaining(conn)) == None
    ensures rv != Err ==> !conn.sock.failed
    ensures conn.sock.Budget() <= old(conn.sock.Budget())
  {
    hide Decode;
    var leftToRead := conn.chunkLen - conn.ioBufAlloc + 2;
    if leftToRead > 0 {
      conn.ioLeft, conn.ioDone := leftToRead, 0;
      rv := NotDone;
      while rv == NotDone
        invariant conn.Valid() && (conn.ioBuf == old(conn.ioBuf) || fresh(conn.ioBuf))
        invariant conn.chunkLen == old(conn.chunkLen) && conn.Stream() == old(conn.Stream())
        invariant conn.ioBufAlloc + conn.ioLeft == conn.chunkLen + 2
        invariant rv != Err && (rv == NotDone ==> conn.ioLeft > 0) && (rv == Done ==> conn.ioLeft == 0)
        invariant !conn.sock.failed && conn.sock.Budget() <= old(conn.sock.Budget())
        decreases conn.sock.Budget(), rv == NotDone
      {
        rv := conn.ReadIntoBuf();
        if rv == Err {
          return;
        }
        if rv == Done && conn.lastRead == 0 {
          assert conn.Stream() == conn.Contents();
          DecodeShort(conn.chunkLen, conn.Stream());
          return Err;
        }
        if conn.async && rv == NotDone {
          return;
        }
      }
    }
    if conn.ioBufAlloc >= conn.chunkLen + 2 {
      return Done;
    }
    assert false;
    rv := Err;
  }

  /** read_chunk: a whole chunk and its line end in the buffer, or the header of the last chunk consumed. */
  method ReadChunk(conn: Conn) returns (rv: Status)
    requires conn.Valid() && !conn.sock.failed && conn.ioLeft >= 0 && conn.chunkLen >= 0
    modifies conn, conn.ioBuf, conn.sock
    ensures conn.Valid() && (conn.ioBuf == old(conn.ioBuf) || fresh(conn.ioBuf))
    ensures rv != Err ==> conn.chunkLen >= 0
    ensures rv == NotDone ==>
              && conn.async && conn.ioLeft >= 0 && conn.sock.Budget() < old(conn.sock.Budget())
              && Remaining(conn) == old(Remaining(conn))
    ensures rv == Done && conn.chunkLen > 0 ==>
              conn.ioBufAlloc >= conn.chunkLen + 2 && Remaining(conn) == old(Remaining(conn))
    ensures rv == Done && conn.chunkLen == 0 ==> old(Remaining(conn)) == Some(([], conn.Stream()))
    ensures rv == Err ==> conn.sock.failed || old(Remaining(conn)) == None
    ensures rv != Err ==> !conn.sock.failed
    ensures |conn.Stream()| <= old(|conn.Stream()|) && conn.sock.Budget() <= old(conn.sock.Budget())
  {
    hide Decode;
    if conn.chunkLen == 0 {
      rv := ReadChunkHeader(conn);
      if rv != Done {
        return;
      }
    }
    rv := Done;
    if conn.chunkLen != 0 {
      rv := FillChunk(conn);
    }
  }

  class Resp {
    var body: seq<Byte>
    var contentLength: nat
    var flushedLength: nat
    /** Every body the caller was shown by a flush, in order. */
    ghost var shown: seq<Byte>

    constructor ()
      ensures body == [] && flushedLength == 0 && shown == []
    {
      body, contentLength, flushedLength, shown := [], 0, 0, [];
    }

    /** After the last header: at least the final line end in the buffer, unless the peer is gone. */
    method AwaitLineEnd(conn: Conn) returns (rv: Status)
      requires conn.Valid() && !conn.sock.failed
      modifies conn, conn.ioBuf, conn.sock
      ensures conn.Valid() && (conn.ioBuf == old(conn.ioBuf) || fresh(conn.ioBuf))
      ensures conn.chunkLen == old(conn.chunkLen) && conn.Stream() == old(conn.Stream()) && rv != NotDone
      ensures rv == Done ==> conn.ioBufAlloc >= 2 || conn.sock.pending == []
      ensures rv != Err ==> !conn.sock.failed
      ensures rv == Err ==> conn.sock.failed
      ensures conn.sock.Budget() <= old(conn.sock.Budget())
    {
      rv := Done;
      if conn.ioBufAlloc < 2 {
        conn.ioLeft, conn.ioDone := 2 - conn.ioBufAlloc, 0;
        rv := NotDone;
        while rv == NotDone
          invariant conn.Valid() && (conn.ioBuf == old(conn.ioBuf) || fresh(conn.ioBuf))
          invariant conn.chunkLen == old(conn.chunkLen) && conn.Stream() == old(conn.Stream())
          invariant rv == NotDone ==> conn.ioLeft > 0 && conn.ioBufAlloc + conn.ioLeft == 2
          invariant rv == Done ==> conn.ioBufAlloc >= 2 || conn.sock.pending == []
          invariant conn.sock.failed <==> rv == Err
          invariant conn.sock.Budget() <= old(conn.sock.Budget())
          decreases conn.sock.Budget(), rv == NotDone
        {
          rv := conn.ReadIntoBuf();
        }
      }
    }

    /** Append the chunk in the buffer to the body and clip it off with its line end. */
    method TakeChunk(conn: Conn)
      requires conn.Valid() && conn.chunkLen > 0 && conn.ioBufAlloc >= conn.chunkLen + 2
      modifies this`body, conn, conn.ioBuf
      ensures conn.Valid() && conn.ioBuf == old(conn.ioBuf) && conn.ioLeft == 0 && conn.chunkLen == 0
      ensures Prepend(body, Remaining(conn)) == Prepend(old(body), old(Remaining(conn)))
      ensures |conn.Stream()| < old(|conn.Stream()|)
    {
      hide Decode, Prepend;
      ghost var stream := conn.Stream();
      var n := conn.chunkLen;
      DecodeChunk(n, stream);
      PrependTwice(body, stream[..n], Decode(0, stream[n + 2..]));
      body := body + conn.ioBuf[..n];
      assert conn.ioBuf[..n] == stream[..n];
      conn.BufClip(n + 2);
      assert conn.Stream() == stream[n + 2..];
      conn.chunkLen := 0;
    }

    /** read_body_chunked: resumable until it reports Done or Err. */
    method ReadBodyChunked(conn: Conn) returns (rv: Status)
      requires conn.Valid() && !conn.sock.failed && conn.ioLeft >= 0 && conn.chunkLen >= 0
      modifies this`body, conn, conn.ioBuf, conn.sock
      ensures conn.Valid() && (conn.ioBuf == old(conn.ioBuf) || fresh(conn.ioBuf))
      ensures rv == NotDone ==>
                && conn.async && conn.ioLeft >= 0 && conn.chunkLen >= 0 && conn.sock.Budget() < old(conn.sock.Budget())
                && Prepend(body, Remaining(conn)) == Prepend(old(body), old(Remaining(conn)))
      ensures rv == Done ==>
                && Prepend(old(body), old(Remaining(conn))) == Some((body, conn.Stream())) && conn.chunkLen == 0
                && (conn.ioBufAlloc >= 2 || conn.sock.pending == [])
      ensures rv == Err ==> conn.sock.failed || old(Remaining(conn)) == None
      ensures rv != Err ==> !conn.sock.failed
    {
      hide Decode, Prepend, FindPatt;
      ghost var whole := Prepend(body, Remaining(conn));
      var done := false;
      rv := Done;
      while !done
        invariant conn.Valid() && (conn.ioBuf == old(conn.ioBuf) || fresh(conn.ioBuf)) && !conn.sock.failed
        invariant conn.chunkLen >= 0 && conn.sock.Budget() <= old(conn.sock.Budget())
        invariant !done ==> conn.ioLeft >= 0 && Prepend(body, Remaining(conn)) == whole
        invariant done ==>
                    && whole == Some((body, conn.Stream())) && conn.chunkLen == 0
                    && (conn.ioBufAlloc >= 2 || conn.sock.pending == [])
        decreases |conn.Stream()|, !done
      {
        ghost var before := Remaining(conn);
        rv := ReadChunk(conn);
        if rv == Err {
          Whole(old(body), old(Remaining(conn)), body, before);
          return;
        }
        if conn.async && rv == NotDone {
          return;
        }
        if conn.chunkLen > 0 {
          TakeChunk(conn);
        } else {
          LastHeader(body, conn.Stream());
          rv := AwaitLineEnd(conn);
          if rv == Err {
            return;
          }
          done := true;
        }
      }
      rv := Done;
    }

    lemma LastHeader(body: seq<Byte>, rest: seq<Byte>)
      ensures Prepend(body, Some(([], rest))) == Some((body, rest))
    {
      assert body + [] == body;
    }

    lemma Whole(a: seq<Byte>, r: Option<(seq<Byte>, seq<Byte>)>, b: seq<Byte>, s: Option<(seq<Byte>, seq<Byte>)>)
      ensures Prepend(a, r) == Prepend(b, s) && s == None ==> r == None
    {}

    /** The caller's loop: enter again for as long as there is more to come. */
    method FinishChunked(conn: Conn) returns (rv: Status)
      requires conn.Valid() && !conn.sock.failed && conn.ioLeft >= 0 && conn.chunkLen >= 0
      modifies this`body, conn, conn.ioBuf, conn.sock
      ensures conn.Valid() && rv != NotDone
      ensures rv == Done ==> Prepend(old(body), old(Remaining(conn))) == Some((body, conn.Stream()))
      ensures rv == Err ==> conn.sock.failed || old(Remaining(conn)) == None
    {
      hide Decode, Prepend;
      rv := NotDone;
      while rv == NotDone
        invariant conn.Valid() && (conn.ioBuf == old(conn.ioBuf) || fresh(conn.ioBuf))
        invariant rv == NotDone ==>
                    && !conn.sock.failed && conn.ioLeft >= 0 && conn.chunkLen >= 0
                    && Prepend(body, Remaining(conn)) == Prepend(old(body), old(Remaining(conn)))
        invariant rv == Done ==> Prepend(old(body), old(Remaining(conn))) == Some((body, conn.Stream()))
        invariant rv == Err ==> conn.sock.failed || old(Remaining(conn)) == None
        decreases rv == NotDone, conn.sock.Budget()
      {
        Whole(old(body), old(Remaining(conn)), body, Remaining(conn));
        rv := ReadBodyChunked(conn);
      }
    }

    // ---- bodies of a declared length

    /** The lengths the object keeps add up to the bodies it has shown. */
    ghost predicate Accounted()
      reads this
    {
      flushedLength + |body| == |shown|
    }

    /** flush_response_body: the buffered bytes become the body, the last one counts as flushed. */
    method FlushResponseBody(conn: Conn)
      requires conn.Valid() && Accounted()
      modifies this`body, this`flushedLength, this`shown, conn`ioBuf, conn`ioBufAlloc, conn`ioLeft, conn`ioDone
      ensures conn.Valid() && fresh(conn.ioBuf) && Accounted() && conn.Contents() == [] && conn.ioLeft == 0
      ensures body == old(conn.Contents()) && shown == old(shown) + body
      ensures shown + conn.Stream() == old(shown + conn.Stream())
    {
      flushedLength := flushedLength + |body|;
      body := conn.ioBuf[..conn.ioBufAlloc];
      assert shown + conn.Stream() == shown + body + conn.sock.pending;
      conn.BufReset();
      shown := shown + body;
    }

    /** The bytes of the body read so far: shown ones and buffered ones. */
    ghost function Received(conn: Conn): nat
      requires conn.Valid()
      reads this, conn
    {
      |shown| + conn.ioBufAlloc
    }

    /** read_body_content_length: resumable, with any flushes between two calls. */
    method ReadBodyContentLength(conn: Conn) returns (rv: Status)
      requires conn.Valid() && !conn.sock.failed && Accounted()
      modifies this`body, this`flushedLength, this`shown, conn, conn.ioBuf, conn.sock
      ensures conn.Valid() && (conn.ioBuf == old(conn.ioBuf) || fresh(conn.ioBuf)) && Accounted()
      ensures shown + conn.Stream() == old(shown + conn.Stream())
      ensures rv == NotDone ==>
                && conn.async && shown == old(shown) && old(Received(conn)) <= Received(conn) < contentLength
                && conn.sock.Budget() < old(conn.sock.Budget())
      ensures rv == Done ==>
                if contentLength == 0 then shown == old(shown)
                else |shown| == Max(contentLength, old(Received(conn))) && conn.Contents() == []
      ensures rv == Err ==> conn.sock.failed || old(|shown + conn.Stream()|) < contentLength
      ensures rv != Err ==> !conn.sock.failed
    {
      if contentLength == 0 {
        return Done;
      }
      var leftToRead := contentLength - conn.ioBufAlloc - flushedLength - |body|;
      conn.ioLeft, conn.ioDone := leftToRead, 0;
      if leftToRead > 0 {
        rv := NotDone;
        while rv == NotDone
          invariant conn.Valid() && (conn.ioBuf == old(conn.ioBuf) || fresh(conn.ioBuf))
          invariant Accounted() && shown == old(shown) && conn.Stream() == old(conn.Stream())
          invariant Received(conn) >= old(Received(conn))
          invariant rv != Err ==> Received(conn) + conn.ioLeft == contentLength
          invariant (rv == NotDone ==> conn.ioLeft > 0) && (rv == Done ==> conn.ioLeft == 0)
          invariant conn.sock.failed <==> rv == Err
          invariant conn.sock.Budget() <= old(conn.sock.Budget())
          decreases conn.sock.Budget(), rv == NotDone
        {
          rv := conn.ReadIntoBuf();
          if rv == NotDone && conn.async {
            return;
          }
          if rv == Done && conn.lastRead == 0 {
            assert conn.Stream() == conn.Contents();
            return Err;
          }
        }
        if rv == Err {
          return;
        }
      }
      FlushResponseBody(conn);
      rv := Done;
    }

    /** The caller's loop with a flush after any of the unfinished calls. */
    method FinishContentLength(conn: Conn, flushes: seq<bool>) returns (rv: Status)
      requires conn.Valid() && !conn.sock.failed && Accounted() && contentLength > 0
      modifies this`body, this`flushedLength, this`shown, conn, conn.ioBuf, conn.sock
      ensures conn.Valid() && Accounted() && rv != NotDone
      ensures shown + conn.Stream() == old(shown + conn.Stream()) && shown <= old(shown + conn.Stream())
      ensures rv == Done ==>
                && |shown| == Max(contentLength, old(Received(conn)))
                && (|shown| == contentLength <==> old(Received(conn)) <= contentLength)
      ensures rv == Err ==> conn.sock.failed || old(|shown + conn.Stream()|) < contentLength
    {
      rv := NotDone;
      var i := 0;
      while rv == NotDone
        invariant conn.Valid() && (conn.ioBuf == old(conn.ioBuf) || fresh(conn.ioBuf)) && Accounted() && 0 <= i
        invariant shown + conn.Stream() == old(shown + conn.Stream())
        invariant rv == NotDone ==>
                    && !conn.sock.failed
                    && Max(contentLength, Received(conn)) == Max(contentLength, old(Received(conn)))
        invariant rv == Done ==> |shown| == Max(contentLength, old(Received(conn)))
        invariant rv == Err ==> conn.sock.failed || old(|shown + conn.Stream()|) < contentLength
        decreases rv == NotDone, conn.sock.Budget()
      {
        rv := ReadBodyContentLength(conn);
        if rv == NotDone && i < |flushes| && flushes[i] {
          FlushResponseBody(conn);
        }
        i := i + 1;
      }
    }
  }

  function Max(a: nat, b: nat): nat {
    if a < b then b else a
  }
}
