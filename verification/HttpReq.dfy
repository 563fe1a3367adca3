/** The request: the length it declares, and the body it sends in blocks over partial writes. */
module HttpReq {
  import opened Bytes
  import opened HttpTrans
  import CJson

  const BLOCK: nat := 262144

  datatype Kind = Get | Post | Put | Trace | Head | OtherMethod

  /** A request; contentLength is the Content-Length header, set by the caller or not at all. */
  datatype Req = Req(kind: Kind, body: seq<Byte>, body1: seq<Byte>, body2: seq<Byte>, contentLength: Option<seq<Byte>>)

  function Whole(r: Req): seq<Byte> {
    r.body + r.body1 + r.body2
  }

  /** http_req_prepare, as far as the Content-Length header goes. */
  function Prepare(r: Req): Req {
    if r.kind in {Post, Put, Trace} && r.body != [] then
      r.(contentLength := Some(CJson.PrintInt(|r.body| + |r.body1| + |r.body2|)))
    else r
  }

  /** The header names the number of bytes of the three parts, exactly when the first part is not empty. */
  lemma DeclaredLength(r: Req)
    requires r.contentLength == None
    ensures Prepare(r).contentLength.Some? <==> r.body != [] && (r.kind.Post? || r.kind.Put? || r.kind.Trace?)
    ensures Whole(Prepare(r)) == Whole(r)
    ensures Prepare(r).contentLength.Some? ==> CJson.ParseDigits(Prepare(r).contentLength.value, 0) == (|Whole(r)|, [])
  {
    hide CJson.ParseDigits, CJson.Digits;
    var n := |Whole(r)|;
    CJson.DigitsParse(n, 0, []);
    assert CJson.Digits(n) + [] == CJson.Digits(n);
  }

  /** The saved buffer fields of a connection. */
  datatype Saved = Saved(ioBuf: array<Byte>, ioBufAlloc: nat, ioLeft: int, ioDone: nat)

  function Fields(conn: Conn): Saved
    reads conn
  {
    Saved(conn.ioBuf, conn.ioBufAlloc, conn.ioLeft, conn.ioDone)
  }

  method RestoreConn(conn: Conn, bak: Saved)
    modifies conn`ioBuf, conn`ioBufAlloc, conn`ioLeft, conn`ioDone
    ensures Fields(conn) == bak
  {
    conn.ioBuf, conn.ioBufAlloc, conn.ioLeft, conn.ioDone := bak.ioBuf, bak.ioBufAlloc, bak.ioLeft, bak.ioDone;
  }

  /**
   One block through the connection: all of it, unless a write fails, takes nothing or is interrupted, or an old error
   asks to try again.
   */
  method SendBlock(conn: Conn, block: seq<Byte>) returns (ok: bool, ghost sent: nat)
    requires block != [] && !conn.sock.failed
    modifies conn, conn.sock
    ensures sent <= |block| && conn.sock.written == old(conn.sock.written) + block[..sent]
    ensures conn.sock.interrupts >= old(conn.sock.interrupts)
    ensures ok ==> conn.error != EAgain && !conn.sock.failed
    ensures ok ==> (sent == |block| <==> conn.sock.interrupts == old(conn.sock.interrupts))
    ensures !ok ==> conn.sock.failed || old(conn.error) == EAgain
  {
    conn.ioBuf := new Byte[|block|](i requires 0 <= i < |block| => block[i]);
    conn.ioBufAlloc, conn.ioLeft, conn.ioDone := |block|, |block|, 0;
    assert conn.ioBuf[..] == block;
    var rv := NotDone;
    ghost var start, intr := conn.sock.written, conn.sock.interrupts;
    sent := 0;
    assert start + block[..0] == start;
    while rv == NotDone
      invariant conn.ioBufAlloc == |block| && fresh(conn.ioBuf) && conn.ioBuf[..] == block
      invariant 0 <= conn.ioLeft && conn.ioDone + conn.ioLeft == |block| && sent == conn.ioDone
      invariant conn.sock.written == start + block[..sent]
      invariant rv == NotDone ==> conn.ioLeft > 0 && conn.sock.interrupts == intr && conn.error == old(conn.error)
      invariant rv == Done ==> (conn.ioLeft == 0 <==> conn.sock.interrupts == intr) && conn.error != EAgain
      invariant rv != Err && !conn.sock.failed && conn.sock.interrupts >= intr
      decreases conn.ioLeft, rv == NotDone
    {
      ghost var before := conn.ioDone;
      rv := conn.WriteBuf();
      sent := conn.ioDone;
      assert conn.ioBuf[before..sent] == block[before..sent];
      assert start + block[..before] + block[before..sent] == start + block[..sent];
      if rv == Err {
        return false, sent;
      }
      if rv == Done && conn.lastRead == 0 {
        return false, sent;
      }
      if conn.error == EAgain {
        return false, sent;
      }
    }
    ok := true;
  }

  /** Where the body phase stands: what was sent, and whether anything was dropped on the way. */
  ghost predicate Sent(start: seq<Byte>, written: seq<Byte>, goal: seq<Byte>, clean: bool) {
    && |written| <= |start + goal| && (|written| == |start + goal| <==> clean)
    && (clean ==> written == start + goal)
  }

  lemma Progress(start: seq<Byte>, was: seq<Byte>, goal: seq<Byte>, clean: bool, block: seq<Byte>, sent: nat)
    requires Sent(start, was, goal, clean) && sent <= |block|
    ensures Sent(start, was + block[..sent], goal + block, clean && sent == |block|)
    ensures clean ==> was + block[..sent] <= start + (goal + block)
  {
    if clean {
      assert start + (goal + block) == was + block[..sent] + block[sent..];
      assert sent == |block| ==> block[..sent] == block;
    }
  }

  lemma Slices(part: seq<Byte>, offset: nat, l: nat)
    requires offset + l <= |part|
    ensures part[..offset] + part[offset..offset + l] == part[..offset + l]
  {}

  /** One part of the body, in blocks. */
  method SendPart(conn: Conn, part: seq<Byte>, ghost start: seq<Byte>, ghost goal: seq<Byte>, ghost intr: nat)
    returns (ok: bool)
    requires !conn.sock.failed && conn.sock.interrupts >= intr
    requires Sent(start, conn.sock.written, goal, conn.sock.interrupts == intr)
    modifies conn, conn.sock
    ensures conn.sock.interrupts >= intr
    ensures ok ==> !conn.sock.failed && (old(conn.error) != EAgain ==> conn.error != EAgain)
    ensures ok ==> Sent(start, conn.sock.written, goal + part, conn.sock.interrupts == intr)
    ensures !ok ==> conn.sock.failed || old(conn.error) == EAgain
    ensures conn.sock.interrupts == intr ==> start <= conn.sock.written <= start + (goal + part)
  {
    hide Sent;
    var remain, offset := |part|, 0;
    assert goal + part[..0] == goal && part[..|part|] == part;
    SentPrefix(start, conn.sock.written, goal, conn.sock.interrupts == intr, part, 0);
    while remain > 0
      invariant 0 <= offset && 0 <= remain && offset + remain == |part| && !conn.sock.failed
      invariant conn.sock.interrupts >= intr
      invariant Sent(start, conn.sock.written, goal + part[..offset], conn.sock.interrupts == intr)
      invariant conn.sock.interrupts == intr ==> start <= conn.sock.written <= start + (goal + part)
      invariant conn.error == old(conn.error) || conn.error != EAgain
    {
      var l := if remain > BLOCK then BLOCK else remain;
      var block := part[offset..offset + l];
      ghost var was, clean := conn.sock.written, conn.sock.interrupts == intr;
      ghost var sent;
      ok, sent := SendBlock(conn, block);
      Progress(start, was, goal + part[..offset], clean, block, sent);
      Slices(part, offset, l);
      assert goal + part[..offset] + block == goal + part[..offset + l];
      assert goal + part[..offset + l] + part[offset + l..] == goal + part;
      PrefixOf(start, conn.sock.written, goal + part[..offset + l], part[offset + l..], clean);
      if !ok {
        return;
      }
      remain, offset := remain - l, offset + l;
    }
    ok := true;
  }

  lemma SentPrefix(start: seq<Byte>, written: seq<Byte>, goal: seq<Byte>, clean: bool, part: seq<Byte>, k: nat)
    requires Sent(start, written, goal, clean)
    ensures clean ==> start <= written <= start + (goal + part)
  {
    assert start + (goal + part) == start + goal + part;
  }

  lemma PrefixOf(start: seq<Byte>, written: seq<Byte>, goal: seq<Byte>, more: seq<Byte>, clean: bool)
    ensures clean && written <= start + goal ==> written <= start + (goal + more)
  {
    assert start + (goal + more) == start + goal + more;
  }

  /**
   The synchronous body phase of http_req_send: the three parts, block by block, through the connection's own fields,
   which are what they were on every way out.
   */
  method SendBody(r: Req, conn: Conn) returns (rv: Status)
    requires !conn.async && !conn.sock.failed
    modifies conn, conn.sock
    ensures rv != NotDone && Fields(conn) == old(Fields(conn))
    ensures rv == Done ==>
              (conn.sock.written == old(conn.sock.written) + Whole(r)
               <==> conn.sock.interrupts == old(conn.sock.interrupts))
    ensures rv == Err ==> conn.sock.failed || old(conn.error) == EAgain
    ensures conn.sock.interrupts == old(conn.sock.interrupts) ==>
              old(conn.sock.written) <= conn.sock.written <= old(conn.sock.written) + Whole(r)
  {
    hide Sent;
    var bak := Fields(conn);
    var parts := [r.body, r.body1, r.body2];
    ghost var start, intr, goal := conn.sock.written, conn.sock.interrupts, [];
    NothingSent(start);
    var i := 0;
    while i < 3
      invariant 0 <= i <= 3 && !conn.sock.failed && conn.sock.interrupts >= intr
      invariant goal == if i == 0 then [] else if i == 1 then r.body else if i == 2 then r.body + r.body1 else Whole(r)
      invariant Sent(start, conn.sock.written, goal, conn.sock.interrupts == intr)
      invariant conn.error == old(conn.error) || conn.error != EAgain
    {
      ghost var before := goal;
      var ok := SendPart(conn, parts[i], start, goal, intr);
      goal := goal + parts[i];
      assert [] + r.body == r.body;
      ghost var rest := if i == 0 then r.body1 + r.body2 else if i == 1 then r.body2 else [];
      assert goal + rest == Whole(r);
      PrefixOf(start, conn.sock.written, goal, rest, conn.sock.interrupts == intr);
      if !ok {
        RestoreConn(conn, bak);
        return Err;
      }
      i := i + 1;
    }
    SentAll(start, conn.sock.written, goal, conn.sock.interrupts == intr);
    RestoreConn(conn, bak);
    rv := Done;
  }

  /**
   What http_req_send does once the headers are out: without a Content-Length header there is no body phase, whatever
   the parts hold.
   */
  method BodyPhase(r: Req, conn: Conn) returns (rv: Status)
    requires !conn.async && !conn.sock.failed
    modifies conn, conn.sock
    ensures rv != NotDone && Fields(conn) == old(Fields(conn))
    ensures rv == Err ==> conn.sock.failed || old(conn.error) == EAgain
    ensures conn.sock.interrupts == old(conn.sock.interrupts) ==>
              old(conn.sock.written) <= conn.sock.written <= old(conn.sock.written) + Whole(r)
    ensures rv == Done ==>
              (conn.sock.written == old(conn.sock.written) + Whole(r) <==>
                if r.contentLength.Some? then conn.sock.interrupts == old(conn.sock.interrupts) else Whole(r) == [])
  {
    if r.contentLength.Some? {
      rv := SendBody(r, conn);
    } else {
      rv := Done;
    }
  }

  lemma NothingSent(start: seq<Byte>)
    ensures Sent(start, start, [], true)
  {
    assert start + [] == start;
  }

  lemma SentAll(start: seq<Byte>, written: seq<Byte>, goal: seq<Byte>, clean: bool)
    requires Sent(start, written, goal, clean)
    ensures written == start + goal <==> clean
  {}
}
