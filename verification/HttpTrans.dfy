/**
 The transport under the HTTP client: a growing buffer filled from, and drained
 to, a socket that moves any number of bytes at a time.
 */
module HttpTrans {
  import opened Bytes

  datatype Status = Err | Done | NotDone

  /** What the kernel does with one read or write; a write that takes no byte leaves an older errno in place. */
  datatype Outcome = Interrupted | Failed(again: bool) | Moved(n: nat) | Stuck(errno: Errno)

  /** What the caller sees of it: a failure is not an interruption, and may be one that asks to try again. */
  datatype Errno = NoError | EIntr | EAgain | Other

  function Min(a: nat, b: nat): nat {
    if a < b then a else b
  }

  /** A socket: the bytes the peer still sends before it closes, and a script of how they arrive. */
  class Socket {
    var pending: seq<Byte>
    var script: seq<Outcome>
    var written: seq<Byte>
    ghost var failed: bool
    ghost var interrupts: nat

    constructor (input: seq<Byte>, outcomes: seq<Outcome>)
      ensures pending == input && script == outcomes && written == [] && !failed && interrupts == 0
    {
      pending, script, written, failed, interrupts := input, outcomes, [], false, 0;
    }

    function Budget(): nat
      reads this
    {
      |pending| + |script|
    }

    /** read(2): a negative count is an error, zero the end of the stream. */
    method Read(want: nat) returns (n: int, bytes: seq<Byte>, errno: Errno)
      requires want > 0
      modifies this`pending, this`script, this`failed, this`interrupts
      ensures old(pending) == bytes + pending && |bytes| <= want
      ensures n < 0 ==> bytes == [] && Budget() < old(Budget()) && errno != NoError
      ensures n >= 0 ==> n == |bytes| && Budget() <= old(Budget()) && (n > 0 ==> Budget() < old(Budget()))
      ensures n == 0 ==> pending == []
      ensures failed <==> old(failed) || (n < 0 && errno != EIntr)
    {
      var outcome := Moved(want);
      if script != [] {
        outcome, script := script[0], script[1..];
      }
      n, bytes, errno := -1, [], NoError;
      var most := if outcome.Moved? && outcome.n > 0 then outcome.n else 1;
      match outcome
      case Interrupted => errno, interrupts := EIntr, interrupts + 1;
      case Failed(again) => errno, failed := if again then EAgain else Other, true;
      case _ =>
        n := Min(Min(most, want), |pending|);
        bytes, pending := pending[..n], pending[n..];
    }

    /** write(2) of at least a byte: it fails, is interrupted, or takes some of the bytes, or none. */
    method Write(data: seq<Byte>) returns (n: int, errno: Errno)
      requires data != []
      modifies this`written, this`script, this`failed, this`interrupts
      ensures n <= 0 ==> written == old(written) && |script| < old(|script|)
      ensures n < 0 ==> errno != NoError
      ensures n > 0 ==> errno == NoError && n <= |data| && written == old(written) + data[..n]
      ensures failed <==> old(failed) || n == 0 || (n < 0 && errno != EIntr)
      ensures interrupts == old(interrupts) + (if n < 0 && errno == EIntr then 1 else 0)
    {
      var outcome := Moved(|data|);
      if script != [] {
        outcome, script := script[0], script[1..];
      }
      n, errno := -1, NoError;
      match outcome
      case Interrupted => errno, interrupts := EIntr, interrupts + 1;
      case Failed(again) => errno, failed := if again then EAgain else Other, true;
      case Stuck(e) => n, errno, failed := 0, e, true;
      case Moved(k) =>
        n := Min(if k == 0 then 1 else k, |data|);
        written := written + data[..n];
    }
  }

  predicate MatchAt(s: seq<Byte>, patt: seq<Byte>, i: nat) {
    i + |patt| <= |s| && s[i..i + |patt|] == patt
  }

  /** The first occurrence of patt at or after i. */
  function FindPatt(s: seq<Byte>, patt: seq<Byte>, i: nat): (r: Option<nat>)
    ensures r.Some? ==> i <= r.value && MatchAt(s, patt, r.value)
    ensures r.Some? ==> forall j :: i <= j < r.value ==> !MatchAt(s, patt, j)
    ensures r.None? ==> forall j :: i <= j ==> !MatchAt(s, patt, j)
    decreases |s| - i
  {
    if i + |patt| > |s| then None
    else if MatchAt(s, patt, i) then Some(i)
    else FindPatt(s, patt, i + 1)
  }

  /** More bytes at the end do not move the first occurrence. */
  lemma FindPattExtends(s: seq<Byte>, t: seq<Byte>, patt: seq<Byte>)
    requires FindPatt(s, patt, 0).Some?
    ensures FindPatt(s + t, patt, 0) == FindPatt(s, patt, 0)
  {
    hide FindPatt;
    var i := FindPatt(s, patt, 0).value;
    assert (s + t)[i..i + |patt|] == s[i..i + |patt|];
    forall j: nat | j < i
      ensures !MatchAt(s + t, patt, j)
    {
      assert !MatchAt(s, patt, j);
      assert (s + t)[j..j + |patt|] == s[j..j + |patt|];
    }
    assert MatchAt(s + t, patt, i);
    assert FindPatt(s + t, patt, 0).Some?;
  }

  /** http_trans_conn: the buffer holds ioBufAlloc bytes, and io_left / io_done count one transfer. */
  class Conn {
    const sock: Socket
    const async: bool
    const chunkSize: nat
    var ioBuf: array<Byte>
    var ioBufAlloc: nat
    var ioLeft: int
    var ioDone: nat
    var lastRead: int
    var chunkLen: int
    var error: Errno

    ghost predicate Valid()
      reads this
    {
      ioBufAlloc <= ioBuf.Length && chunkSize > 0
    }

    ghost function Contents(): (r: seq<Byte>)
      requires Valid()
      reads this, ioBuf
      ensures |r| == ioBufAlloc
    {
      ioBuf[..ioBufAlloc]
    }

    /** Every byte of the stream not yet taken out of the buffer. */
    ghost function Stream(): seq<Byte>
      requires Valid()
      reads this, ioBuf, sock
    {
      Contents() + sock.pending
    }

    constructor (sock: Socket, async: bool, chunkSize: nat)
      requires chunkSize > 0
      ensures Valid() && fresh(ioBuf) && Contents() == [] && ioLeft == 0 && chunkLen == 0
      ensures this.sock == sock && this.async == async && this.chunkSize == chunkSize && error == NoError
    {
      this.sock, this.async, this.chunkSize := sock, async, chunkSize;
      ioBuf := new Byte[chunkSize];
      ioBufAlloc, ioLeft, ioDone, lastRead, chunkLen, error := 0, 0, 0, 0, 0, NoError;
    }

    /** Grow the buffer to take io_left more bytes. */
    method Reserve(room: nat)
      requires Valid()
      modifies this`ioBuf
      ensures Valid() && Contents() == old(Contents()) && ioBuf.Length - ioBufAlloc >= room
      ensures ioBuf == old(ioBuf) || fresh(ioBuf)
    {
      if ioBuf.Length - ioBufAlloc < room {
        var bigger := new Byte[ioBuf.Length + room];
        ghost var was := bigger[..];
        Memcpy(bigger, 0, ioBuf[..ioBufAlloc]);
        SplicePrefix(was, 0, ioBuf[..ioBufAlloc]);
        assert was[..0] + ioBuf[..ioBufAlloc] == ioBuf[..ioBufAlloc];
        ioBuf := bigger;
      }
    }

    /** Bytes stored behind the filled part, where there is room for them. */
    method Store(data: seq<Byte>)
      requires Valid() && |data| <= ioBuf.Length - ioBufAlloc
      modifies this`ioBufAlloc, ioBuf
      ensures Valid() && Contents() == old(Contents()) + data && ioBufAlloc == old(ioBufAlloc) + |data|
    {
      ghost var was := ioBuf[..];
      Memcpy(ioBuf, ioBufAlloc, data);
      SplicePrefix(was, ioBufAlloc, data);
      ioBufAlloc := ioBufAlloc + |data|;
    }

    /** http_trans_append_data_to_buf */
    method AppendDataToBuf(data: seq<Byte>)
      requires Valid()
      modifies this`ioBuf, this`ioBufAlloc, ioBuf
      ensures Valid() && Contents() == old(Contents()) + data
      ensures ioBuf == old(ioBuf) || fresh(ioBuf)
    {
      Reserve(|data|);
      Store(data);
    }

    /** The bytes one call asks for: io_left when a transfer is under way, else a whole chunk. */
    function Goal(): int
      reads this
    {
      if ioLeft == 0 then chunkSize else ioLeft
    }

    /** A new transfer if none is under way, and room for it. */
    method BeginRead()
      requires Valid() && ioLeft >= 0
      modifies this`ioBuf, this`ioLeft, this`ioDone
      ensures Valid() && (ioBuf == old(ioBuf) || fresh(ioBuf)) && Contents() == old(Contents())
      ensures ioLeft == old(Goal()) > 0 && ioLeft <= ioBuf.Length - ioBufAlloc
    {
      if ioLeft == 0 {
        ioLeft, ioDone := chunkSize, 0;
      }
      Reserve(ioLeft);
    }

    /** http_trans_read_into_buf: one read, appended to the buffer. */
    method ReadIntoBuf() returns (rv: Status)
      requires Valid() && ioLeft >= 0
      modifies this`ioBuf, this`ioBufAlloc, this`ioLeft, this`ioDone, this`lastRead, this`error, ioBuf
      modifies sock`pending, sock`script, sock`failed, sock`interrupts
      ensures Valid() && (ioBuf == old(ioBuf) || fresh(ioBuf))
      ensures Stream() == old(Stream()) && old(Contents()) <= Contents()
      ensures ioLeft >= 0 && ioBufAlloc + ioLeft == old(ioBufAlloc) + old(Goal())
      ensures rv == NotDone ==> ioLeft > 0 && sock.Budget() < old(sock.Budget())
      ensures rv == Done && lastRead != 0 ==> ioLeft == 0 && sock.Budget() < old(sock.Budget())
      ensures rv == Done && lastRead == 0 ==> sock.pending == [] && Contents() == old(Contents())
      ensures sock.failed <==> old(sock.failed) || rv == Err
      ensures sock.Budget() <= old(sock.Budget())
    {
      BeginRead();
      ghost var was := Contents();
      var n, bytes, errno := sock.Read(if ioLeft > chunkSize then chunkSize else ioLeft);
      lastRead := n;
      if n < 0 {
        error := errno;
        if errno != EIntr {
          return Err;
        }
      }
      if n == 0 {
        return Done;
      }
      assert was + bytes + sock.pending == was + (bytes + sock.pending);
      rv := Took(bytes);
    }

    /** The counters after a read: the bytes are in the buffer, and the transfer is that much closer to its end. */
    method Took(bytes: seq<Byte>) returns (rv: Status)
      requires Valid() && |bytes| <= ioLeft && |bytes| <= ioBuf.Length - ioBufAlloc
      modifies this`ioBufAlloc, this`ioLeft, this`ioDone, ioBuf
      ensures Valid() && Contents() == old(Contents()) + bytes
      ensures ioLeft == old(ioLeft) - |bytes| && rv == if ioLeft == 0 then Done else NotDone
    {
      Store(bytes);
      ioLeft, ioDone := ioLeft - |bytes|, ioDone + |bytes|;
      rv := if ioLeft == 0 then Done else NotDone;
    }

    /** Where a write begins and how much it has: a new transfer takes the whole buffer. */
    function WriteFrom(): nat
      reads this
    {
      if ioLeft == 0 then 0 else ioDone
    }

    function WriteLeft(): int
      reads this
    {
      if ioLeft == 0 then ioBufAlloc else ioLeft
    }

    /** http_trans_write_buf: one write of what is left; an interrupted one counts as done. */
    method WriteBuf() returns (rv: Status)
      requires WriteLeft() > 0 && WriteFrom() + WriteLeft() <= ioBufAlloc <= ioBuf.Length
      modifies this`ioLeft, this`ioDone, this`lastRead, this`error, sock`written, sock`script, sock`failed,
        sock`interrupts
      ensures ioLeft >= 0 && ioDone + ioLeft == old(WriteFrom() + WriteLeft()) && ioDone >= old(WriteFrom())
      ensures sock.written == old(sock.written) + ioBuf[old(WriteFrom())..ioDone]
      ensures lastRead <= 0 <==> ioDone == old(WriteFrom())
      ensures rv == (if lastRead > 0 then (if ioLeft == 0 then Done else NotDone)
                     else if error == EIntr then Done else Err)
      ensures error == old(error) || lastRead <= 0
      ensures sock.failed <==> old(sock.failed) || rv == Err || lastRead == 0
      ensures sock.interrupts == old(sock.interrupts) + (if rv == Done && lastRead < 0 then 1 else 0)
    {
      if ioLeft == 0 {
        ioLeft, ioDone := ioBufAlloc, 0;
      }
      var n, errno := sock.Write(ioBuf[ioDone..ioDone + ioLeft]);
      lastRead := n;
      if n <= 0 {
        error := errno;
        if errno != EIntr {
          return Err;
        }
        return Done;
      }
      ioLeft, ioDone := ioLeft - n, ioDone + n;
      rv := if ioLeft == 0 then Done else NotDone;
    }

    /** http_trans_buf_clip: drop the first bytes of the buffer. */
    method BufClip(bytes: nat)
      requires Valid() && bytes <= ioBufAlloc
      modifies this`ioBufAlloc, this`ioLeft, this`ioDone, ioBuf
      ensures Valid() && Contents() == old(Contents())[bytes..] && ioLeft == 0
    {
      if bytes > 0 {
        ghost var was := ioBuf[..];
        var kept := ioBuf[bytes..ioBufAlloc];
        Memcpy(ioBuf, 0, kept);
        SplicePrefix(was, 0, kept);
        assert was[..0] + kept == was[..ioBufAlloc][bytes..];
        ioBufAlloc := ioBufAlloc - bytes;
      }
      ioDone, ioLeft := 0, 0;
    }

    /** http_trans_buf_reset: a new empty buffer. */
    method BufReset()
      requires Valid()
      modifies this`ioBuf, this`ioBufAlloc, this`ioLeft, this`ioDone
      ensures Valid() && fresh(ioBuf) && Contents() == [] && ioLeft == 0
    {
      ioBuf := new Byte[chunkSize];
      ioBufAlloc, ioDone, ioLeft := 0, 0, 0;
    }

    /** http_trans_buf_has_patt over the filled part of the buffer. */
    method BufHasPatt(patt: seq<Byte>) returns (r: Option<nat>)
      requires Valid() && patt != []
      ensures r == FindPatt(Contents(), patt, 0)
    {
      var i := 0;
      while i <= ioBufAlloc - |patt|
        invariant 0 <= i
        invariant FindPatt(Contents(), patt, 0) == FindPatt(Contents(), patt, i)
        decreases ioBufAlloc - i
      {
        ghost var here := Contents()[i..i + |patt|];
        assert here == ioBuf[i..i + |patt|];
        if ioBuf[i] == patt[0] {
          if ioBuf[i..i + |patt|] == patt {
            return Some(i);
          }
        } else {
          assert here[0] != patt[0];
        }
        i := i + 1;
      }
      r := None;
    }
  }
}
