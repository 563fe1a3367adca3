/**
 The packetiser: one PES is cut into 188-byte transport stream packets.

 Packet is the specification of one packet, written as a concatenation of
 fields; Pes.GetPesData is the method that fills a packet in place with the
 branches of the C code. What a receiver makes of the packets is proved in
 TsDemux.
 */
module MpegTs {
  import opened Bytes

  const TS_PACKET_LEN := 188
  const JUST_PAYLOAD: nat := 1
  const BOTH: nat := 3

  datatype VideoFormat = NoVideo | H264 | H265

  /** What LinkInit*PES stores: the stream data, its timestamp in 90 kHz units, and flags. */
  datatype Frame = Frame(es: seq<Byte>, streamId: Byte, pts: int, withPcr: bool, format: VideoFormat)
  {
    /** An audio PES must fit the 16-bit length field; the code asserts it. */
    predicate Sendable() {
      |es| + 8 + |Aud(format)| <= 65535 || 0xE0 <= streamId <= 0xEF
    }
  }

  function Aud(format: VideoFormat): (r: seq<Byte>)
    ensures |r| <= 7
  {
    match format
    case NoVideo => []
    case H264 => [0x00, 0x00, 0x00, 0x01, 0x09, 0xF0]
    case H265 => [0x00, 0x00, 0x00, 0x01, 0x46, 0x01, 0x50]
  }

  function PtsField(pts: int): (r: seq<Byte>)
    ensures |r| == 5
  {
    [0x21 + 2 * ((pts / 0x4000_0000) % 8),
     (pts / 0x40_0000) % 256,
     1 + 2 * ((pts / 0x8000) % 128),
     (pts / 0x80) % 256,
     1 + 2 * (pts % 128)]
  }

  function PesLength(f: Frame): (r: nat)
    ensures r < 65536
  {
    var n := |f.es| + 8 + |Aud(f.format)|;
    if n > 65535 then 0 else n
  }

  function PesPrefix(streamId: Byte, length: nat): (r: seq<Byte>)
    requires length < 65536
    ensures |r| == 9
  {
    [0, 0, 1, streamId, length / 256, length % 256, 0x80, 0x80, 5]
  }

  /** The PES header with only a PTS, followed by the access unit delimiter. */
  function PesHeader(f: Frame): (r: seq<Byte>)
    ensures |r| == 14 + |Aud(f.format)|
  {
    PesPrefix(f.streamId, PesLength(f)) + PtsField(f.pts) + Aud(f.format)
  }

  /** The 8-byte adaptation field that carries only a PCR; the extension is always zero. */
  function PcrField(pcr: int): (r: seq<Byte>)
    ensures |r| == 8
  {
    [7, 0x50,
     (pcr / 0x200_0000) % 256, (pcr / 0x2_0000) % 256, (pcr / 0x200) % 256, (pcr / 2) % 256,
     (pcr % 2) * 128 + 0x7e, 0]
  }

  function TsHeader(start: bool, count: nat, pid: nat, adaptation: nat): (r: seq<Byte>)
    requires count < 16 && pid < 0x2000 && adaptation < 4
    ensures |r| == 4
  {
    [0x47, (if start then 0x40 else 0) + pid / 256, pid % 256, adaptation * 16 + count]
  }

  /** An adaptation field of n bytes in all: length, no flags, stuffing. */
  function Stuffing(n: nat): (r: seq<Byte>)
    requires 2 <= n <= 256
    ensures |r| == n
  {
    [n - 1, 0] + Fill(0xff, n - 2)
  }

  /** The bytes of the packet at position pos that are fixed before the stream data. */
  function Head(f: Frame, pos: nat): (r: seq<Byte>)
    ensures |r| <= 21
  {
    if pos == 0 then PesHeader(f) else []
  }

  function Pcr(f: Frame, pos: nat): (r: seq<Byte>)
    ensures |r| == 0 || |r| == 8
  {
    if pos == 0 && f.withPcr then PcrField(f.pts) else []
  }

  /** How many bytes of stream data a full packet at this position takes. */
  function Room(f: Frame, pos: nat): (r: nat)
    ensures r >= 155
  {
    184 - |Pcr(f, pos)| - |Head(f, pos)|
  }

  /** How many bytes of stream data the packet at this position takes. */
  function ReadLen(f: Frame, pos: nat): (r: nat)
    requires pos < |f.es|
    ensures 1 <= r <= |f.es| - pos
  {
    var remain := |f.es| - pos;
    if remain >= Room(f, pos) then Room(f, pos)
    else if remain == Room(f, pos) - 1 then remain - 1
    else remain
  }

  function Adaptation(f: Frame, pos: nat): (a: nat)
    requires pos < |f.es|
    ensures a == JUST_PAYLOAD || a == BOTH
  {
    if Pcr(f, pos) == [] && ReadLen(f, pos) == Room(f, pos) then JUST_PAYLOAD else BOTH
  }

  /** The 184 bytes after the packet header. */
  function PacketRest(f: Frame, pos: nat): (r: seq<Byte>)
    requires pos < |f.es|
    ensures |r| == 184
  {
    var n := ReadLen(f, pos);
    var body := f.es[pos..pos + n];
    var fill := Room(f, pos) - n;
    if fill == 0 then Pcr(f, pos) + Head(f, pos) + body
    else if Pcr(f, pos) == [] then Stuffing(fill) + Head(f, pos) + body
    else
      // the code takes this first frame to be large enough; its padding lands after the PES header
      Pcr(f, pos) + Head(f, pos) + Stuffing(fill) + body
  }

  /** The packet that carries the stream data from position pos on. */
  function Packet(f: Frame, pos: nat, pid: nat, count: nat): (r: seq<Byte>)
    requires pos < |f.es| && pid < 0x2000 && count < 16
    ensures |r| == TS_PACKET_LEN
  {
    TsHeader(pos == 0, count, pid, Adaptation(f, pos)) + PacketRest(f, pos)
  }

  lemma PacketFull(f: Frame, pos: nat, pid: nat, count: nat, sent: seq<Byte>)
    requires pos < |f.es| && pid < 0x2000 && count < 16 && |f.es| - pos >= Room(f, pos)
    requires sent == TsHeader(pos == 0, count, pid, if Pcr(f, pos) == [] then JUST_PAYLOAD else BOTH)
                     + Pcr(f, pos) + Head(f, pos)
    ensures sent + f.es[pos..pos + Room(f, pos)] == Packet(f, pos, pid, count)
  {
    hide TsHeader, Pcr, Head, Room;
    Assoc(TsHeader(pos == 0, count, pid, Adaptation(f, pos)), Pcr(f, pos), Head(f, pos), f.es[pos..pos + Room(f, pos)]);
  }

  lemma Assoc<T>(a: seq<T>, b: seq<T>, c: seq<T>, d: seq<T>)
    ensures a + b + c + d == a + (b + c + d)
  {}

  /** Stuffing goes before the PES header exactly when that header was held back. */
  lemma PacketAssembled(f: Frame, pos: nat, pid: nat, count: nat, sent: seq<Byte>, withFill: seq<Byte>, all: seq<Byte>)
    requires pos < |f.es| && pid < 0x2000 && count < 16 && |f.es| - pos < Room(f, pos)
    requires sent == TsHeader(pos == 0, count, pid, if Pcr(f, pos) == [] then JUST_PAYLOAD else BOTH)
                     + Pcr(f, pos) + (if pos == 0 && !f.withPcr then [] else Head(f, pos))
    requires withFill == TsHeader(pos == 0, count, pid, BOTH) + sent[4..] + Stuffing(Room(f, pos) - ReadLen(f, pos))
    requires all == if pos == 0 && !f.withPcr then withFill + PesHeader(f) else withFill
    ensures all + f.es[pos..pos + ReadLen(f, pos)] == Packet(f, pos, pid, count)
  {
    hide TsHeader, PesHeader, Stuffing, PcrField, Fill, PacketRest;
    assert sent[4..] == Pcr(f, pos) + (if pos == 0 && !f.withPcr then [] else Head(f, pos));
    var h, s := TsHeader(pos == 0, count, pid, BOTH), Stuffing(Room(f, pos) - ReadLen(f, pos));
    var body := f.es[pos..pos + ReadLen(f, pos)];
    RestPadded(f, pos);
    if pos == 0 && !f.withPcr {
      assert withFill == h + s;
      Assoc(h, s, PesHeader(f), body);
    } else if pos == 0 {
      assert withFill == h + Pcr(f, pos) + Head(f, pos) + s;
      Assoc(h, Pcr(f, pos) + Head(f, pos), s, body);
    } else {
      assert withFill == h + s + [];
      Assoc(h, s, [], body);
    }
  }

  lemma RestPadded(f: Frame, pos: nat)
    requires pos < |f.es| && |f.es| - pos < Room(f, pos)
    ensures Adaptation(f, pos) == BOTH
    ensures var s, body := Stuffing(Room(f, pos) - ReadLen(f, pos)), f.es[pos..pos + ReadLen(f, pos)];
            PacketRest(f, pos) == if Pcr(f, pos) == [] then s + Head(f, pos) + body
                                  else Pcr(f, pos) + Head(f, pos) + s + body
  {
    hide Stuffing, PesHeader, PcrField;
  }

  /** The packets of one frame from position pos on, with consecutive counters. */
  function Packets(f: Frame, pos: nat, pid: nat, count: nat): (r: seq<seq<Byte>>)
    requires pos <= |f.es| && pid < 0x2000 && count < 16
    ensures forall i :: 0 <= i < |r| ==> |r[i]| == TS_PACKET_LEN
    ensures pos < |f.es| ==> |r| > 0
    decreases |f.es| - pos
  {
    if pos == |f.es| then []
    else [Packet(f, pos, pid, count)] + Packets(f, pos + ReadLen(f, pos), pid, (count + 1) % 16)
  }

  lemma OrFacts()
    ensures forall x {:trigger Or(0x40, x)} :: 0 <= x < 32 ==> Or(0x40, x) == 0x40 + x
    ensures forall x {:trigger Or(0, x)} :: 0 <= x ==> Or(0, x) == x
    ensures forall x, a {:trigger Or(a * 16, x)} :: 0 <= x < 16 && 0 <= a ==> Or(a * 16, x) == a * 16 + x
  {
    assert Pow2(4) == 16 && Pow2(6) == 64;
    forall x | 0 <= x < 32 ensures Or(0x40, x) == 0x40 + x {
      OrDisjoint(6, 1, x);
    }
    forall x | 0 <= x ensures Or(0, x) == x {
      OrZero(x);
    }
    forall x, a | 0 <= x < 16 && 0 <= a ensures Or(a * 16, x) == a * 16 + x {
      OrDisjoint(4, a, x);
    }
  }

  lemma SmallOrs()
    ensures Pow2(4) == 16 && Or(1, 3) == 3 && Or(3, 3) == 3
  {}

  /** Setting both adaptation bits keeps the counter below them. */
  lemma OrBoth(b: nat)
    requires 16 <= b < 32 || 48 <= b < 64
    ensures Or(b, BOTH * 16) == 48 + b % 16
  {
    SmallOrs();
    hide Or, Pow2;
    OrHigh(4, b / 16, 3, b % 16);
  }

  /** A packet is built with counter zero; or-ing the counter in afterwards gives the numbered packet. */
  lemma PacketCounter(f: Frame, pos: nat, pid: nat, count: nat)
    requires pos < |f.es| && pid < 0x2000 && count < 16
    ensures Or(Packet(f, pos, pid, 0)[3], count) < 256
    ensures Packet(f, pos, pid, 0)[3 := Or(Packet(f, pos, pid, 0)[3], count)] == Packet(f, pos, pid, count)
  {
    OrFacts();
    hide PacketRest, Adaptation;
    var a := Adaptation(f, pos);
    var p, q := TsHeader(pos == 0, 0, pid, a), TsHeader(pos == 0, count, pid, a);
    assert p[3] == a * 16 && q[3] == a * 16 + count;
    assert p[3 := q[3]] == q;
    assert (p + PacketRest(f, pos))[3 := q[3]] == p[3 := q[3]] + PacketRest(f, pos);
  }

  method SetAdaptationFieldFlag(buf: array<Byte>, flag: nat)
    requires buf.Length >= 4 && Or(buf[3], flag * 16) < 256
    modifies buf
    ensures buf[..] == old(buf[..])[3 := Or(old(buf[3]), flag * 16)]
  {
    buf[3] := Or(buf[3], flag * 16);
  }

  method WriteContinuityCounter(buf: array<Byte>, count: nat)
    requires buf.Length >= 4 && Or(buf[3], count) < 256
    modifies buf
    ensures buf[..] == old(buf[..])[3 := Or(old(buf[3]), count)]
  {
    buf[3] := Or(buf[3], count);
  }

  method WriteTsHeader(buf: array<Byte>, start: bool, count: nat, pid: nat, adaptation: nat) returns (n: nat)
    requires buf.Length >= 4 && count < 16 && pid < 0x2000 && adaptation < 4
    modifies buf
    ensures n == 4
    ensures buf[..] == Splice(old(buf[..]), 0, TsHeader(start, count, pid, adaptation))
  {
    OrFacts();
    buf[0] := 0x47;
    buf[1], buf[2], buf[3] := 0, 0, 0;
    if start {
      buf[1] := Or(buf[1], 0x40);
    }
    buf[1] := Or(buf[1], pid / 256);
    buf[2] := pid % 256;
    SetAdaptationFieldFlag(buf, adaptation);
    buf[3] := Or(buf[3], count);
    n := 4;
  }

  /** The two-byte adaptation field at off, its stuffing, and the flag that announces it. */
  method WriteStuffing(data: array<Byte>, off: nat, padLen: nat, ghost count: nat, ghost pid: nat, ghost start: bool)
    requires data.Length == TS_PACKET_LEN && 4 <= off && off + 2 + padLen <= TS_PACKET_LEN
    requires count < 16 && pid < 0x2000
    requires data[..4] == TsHeader(start, count, pid, JUST_PAYLOAD) || data[..4] == TsHeader(start, count, pid, BOTH)
    modifies data
    ensures data[..off + 2 + padLen] ==
            TsHeader(start, count, pid, BOTH) + old(data[4..off]) + Stuffing(padLen + 2)
  {
    ghost var was := data[..];
    assert data[3] == data[..4][3];
    Memcpy(data, off, [padLen + 1, 0x00]);
    SplicePrefix(was, off, [padLen + 1, 0x00]);
    assert data[3] == was[3];
    OrBoth(data[3]);
    SetAdaptationFieldFlag(data, BOTH);
    ghost var mid := data[..];
    HeaderFlag(was[..4], mid[..4], start, count, pid);
    assert mid[..off + 2] == mid[..4] + was[4..off] + [padLen + 1, 0];
    FillStuffing(data, off, padLen);
    Regroup(mid[..4], was[4..off], [padLen + 1, 0], Fill(0xff, padLen));
  }

  lemma Regroup<T>(a: seq<T>, b: seq<T>, c: seq<T>, d: seq<T>)
    ensures a + b + c + d == a + b + (c + d)
  {}

  /** memset of the stuffing bytes behind the length and the flags. */
  method FillStuffing(data: array<Byte>, off: nat, padLen: nat)
    requires off + 2 + padLen <= data.Length
    modifies data
    ensures data[..off + 2 + padLen] == old(data[..off + 2]) + Fill(0xff, padLen)
  {
    ghost var was := data[..];
    Memcpy(data, off + 2, Fill(0xff, padLen));
    SplicePrefix(was, off + 2, Fill(0xff, padLen));
  }

  lemma HeaderFlag(a: seq<Byte>, b: seq<Byte>, start: bool, count: nat, pid: nat)
    requires count < 16 && pid < 0x2000 && |a| == 4
    requires a == TsHeader(start, count, pid, JUST_PAYLOAD) || a == TsHeader(start, count, pid, BOTH)
    requires b == a[3 := 48 + count]
    ensures b == TsHeader(start, count, pid, BOTH)
  {}

  /** A run of byte stores at consecutive offsets is written as one Memcpy. */
  method WritePesPrefix(buf: array<Byte>, off: nat, streamId: Byte, length: nat)
    requires off + 9 <= buf.Length && length < 65536
    modifies buf
    ensures buf[..] == Splice(old(buf[..]), off, PesPrefix(streamId, length))
  {
    ghost var was := buf[..];
    Memcpy(buf, off, [0, 0, 1, streamId]);
    Memcpy(buf, off + 4, [length / 256, length % 256]);
    SpliceTwice(was, off, [0, 0, 1, streamId], [length / 256, length % 256]);
    Memcpy(buf, off + 6, [0x80, 0x80, 5]);
    SpliceTwice(was, off, [0, 0, 1, streamId] + [length / 256, length % 256], [0x80, 0x80, 5]);
  }

  method WritePts(buf: array<Byte>, off: nat, pts: int)
    requires off + 5 <= buf.Length
    modifies buf
    ensures buf[..] == Splice(old(buf[..]), off, PtsField(pts))
  {
    Memcpy(buf, off, [0x21 + 2 * ((pts / 0x4000_0000) % 8),
                      (pts / 0x40_0000) % 256,
                      1 + 2 * ((pts / 0x8000) % 128),
                      (pts / 0x80) % 256,
                      1 + 2 * (pts % 128)]);
  }

  /** The object behind LinkPES: a frame and how much of it has been sent. */
  class Pes {
    var frame: Frame
    var pos: nat

    constructor ()
      ensures pos == |frame.es|
    {
      frame := Frame([], 0, 0, false, NoVideo);
      pos := 0;
    }

    method Init(es: seq<Byte>, streamId: Byte, milliseconds: int, withPcr: bool, format: VideoFormat)
      modifies this
      ensures pos == 0 && frame == Frame(es, streamId, milliseconds * 90, withPcr, format)
    {
      frame := Frame(es, streamId, milliseconds * 90, withPcr, format);
      pos := 0;
    }

    method WritePesHeader(buf: array<Byte>, off: nat) returns (n: nat)
      requires off + |PesHeader(frame)| <= buf.Length && frame.Sendable()
      modifies buf
      ensures n == |PesHeader(frame)|
      ensures buf[..] == Splice(old(buf[..]), off, PesHeader(frame))
    {
      ghost var was, hdr := buf[..], PesHeader(frame);
      ghost var prefix, pts := PesPrefix(frame.streamId, PesLength(frame)), PtsField(frame.pts);
      var len := |frame.es| + 8 + |Aud(frame.format)|;
      if len > 65535 {
        assert 0xE0 <= frame.streamId <= 0xEF;
        WritePesPrefix(buf, off, frame.streamId, 0);
      } else {
        WritePesPrefix(buf, off, frame.streamId, len);
      }
      WritePts(buf, off + 9, frame.pts);
      SpliceTwice(was, off, prefix, pts);
      n := 14;
      Memcpy(buf, off + n, Aud(frame.format));
      n := n + |Aud(frame.format)|;
      SpliceTwice(was, off, prefix + pts, Aud(frame.format));
    }

    /** The first packet of a frame with a PCR: the flag for both fields, the PCR field, the PES header. */
    method WritePcrHead(count: nat, pid: nat, data: array<Byte>) returns (ret: nat)
      requires data.Length == TS_PACKET_LEN && frame.Sendable() && count < 16 && pid < 0x2000
      requires data[..4] == TsHeader(true, count, pid, JUST_PAYLOAD)
      modifies data
      ensures ret == 12 + |PesHeader(frame)|
      ensures data[..ret] == TsHeader(true, count, pid, BOTH) + PcrField(frame.pts) + PesHeader(frame)
    {
      assert data[3] == data[..4][3];
      OrBoth(data[3]);
      ghost var was := data[..4];
      SetAdaptationFieldFlag(data, BOTH);
      HeaderFlag(was, data[..4], true, count, pid);
      hide TsHeader, PcrField, PesHeader;
      ghost var mid := data[..];
      Memcpy(data, 4, PcrField(frame.pts));
      ret := 12;
      var k := WritePesHeader(data, ret);
      ret := ret + k;
      SpliceTwice(mid, 4, PcrField(frame.pts), PesHeader(frame));
      SplicePrefix(mid, 4, PcrField(frame.pts) + PesHeader(frame));
    }

    /** The branch at the start of a packet: everything that precedes stuffing and stream data. */
    method WriteHead(count: nat, pid: nat, data: array<Byte>) returns (ret: nat, hdrLen: nat, padBeforeHeader: bool)
      requires data.Length == TS_PACKET_LEN && pos < |frame.es| && frame.Sendable()
      requires count < 16 && pid < 0x2000
      modifies data
      ensures padBeforeHeader <==> (pos == 0 && !frame.withPcr && |frame.es| < Room(frame, 0))
      ensures hdrLen == if padBeforeHeader then |PesHeader(frame)| else 0
      ensures ret + hdrLen == 188 - Room(frame, pos)
      ensures data[..ret] == TsHeader(pos == 0, count, pid, if Pcr(frame, pos) == [] then JUST_PAYLOAD else BOTH)
                             + Pcr(frame, pos) + (if padBeforeHeader then [] else Head(frame, pos))
    {
      hide TsHeader, PcrField, PesHeader;
      ghost var was := data[..];
      hdrLen, padBeforeHeader := 0, false;
      ret := WriteTsHeader(data, pos == 0, count, pid, JUST_PAYLOAD);
      SplicePrefix(was, 0, TsHeader(pos == 0, count, pid, JUST_PAYLOAD));
      assert data[..4] == TsHeader(pos == 0, count, pid, JUST_PAYLOAD);
      if pos == 0 {
        if frame.withPcr {
          ret := WritePcrHead(count, pid, data);
        } else {
          hdrLen := 14 + |Aud(frame.format)|;
          if hdrLen + ret + |frame.es| < 188 {
            padBeforeHeader := true;
          } else {
            ghost var mid := data[..];
            var _ := WritePesHeader(data, ret);
            SplicePrefix(mid, 4, PesHeader(frame));
            ret := ret + hdrLen;
            hdrLen := 0;
          }
        }
      }
    }

    /** After the stuffing: the PES header if it was held back, then the stream data. */
    method WriteTail(ghost count: nat, ghost pid: nat, data: array<Byte>, at: nat, readLen: nat, padBeforeHeader: bool,
                     ghost sent: seq<Byte>)
      requires data.Length == TS_PACKET_LEN && pos < |frame.es| && frame.Sendable()
      requires count < 16 && pid < 0x2000 && |frame.es| - pos < Room(frame, pos)
      requires padBeforeHeader <==> pos == 0 && !frame.withPcr
      requires readLen == ReadLen(frame, pos)
      requires at + (if padBeforeHeader then |PesHeader(frame)| else 0) + readLen == 188
      requires sent == TsHeader(pos == 0, count, pid, if Pcr(frame, pos) == [] then JUST_PAYLOAD else BOTH)
                       + Pcr(frame, pos) + (if padBeforeHeader then [] else Head(frame, pos))
      requires data[..at] == TsHeader(pos == 0, count, pid, BOTH) + sent[4..] + Stuffing(Room(frame, pos) - readLen)
      modifies data
      ensures data[..] == Packet(frame, pos, pid, count)
    {
      hide TsHeader, PesHeader, PcrField, Stuffing, Packet, ReadLen;
      ghost var withFill, was := data[..at], data[..];
      var ret := at;
      if padBeforeHeader {
        var k := WritePesHeader(data, ret);
        SplicePrefix(was, ret, PesHeader(frame));
        ret := ret + k;
      }
      ghost var mid := data[..];
      var body := frame.es[pos..pos + readLen];
      Memcpy(data, 188 - readLen, body);
      SplicePrefix(mid, 188 - readLen, body);
      assert data[..] == data[..188];
      PacketAssembled(frame, pos, pid, count, sent, withFill, mid[..188 - readLen]);
    }

    /** The branch for a packet that the remaining data cannot fill. */
    method WritePadded(count: nat, pid: nat, data: array<Byte>, at: nat, hdrLen: nat, padBeforeHeader: bool, len: nat)
      returns (readLen: nat)
      requires data.Length == TS_PACKET_LEN <= len && pos < |frame.es| && frame.Sendable()
      requires count < 16 && pid < 0x2000
      requires |frame.es| - pos < Room(frame, pos)
      requires padBeforeHeader <==> pos == 0 && !frame.withPcr
      requires hdrLen == if padBeforeHeader then |PesHeader(frame)| else 0
      requires at + hdrLen == 188 - Room(frame, pos)
      requires data[..at] == TsHeader(pos == 0, count, pid, if Pcr(frame, pos) == [] then JUST_PAYLOAD else BOTH)
                             + Pcr(frame, pos) + (if padBeforeHeader then [] else Head(frame, pos))
      modifies data
      ensures readLen == ReadLen(frame, pos)
      ensures data[..] == Packet(frame, pos, pid, count)
    {
      ghost var sent := data[..at];
      readLen := |frame.es| - pos;
      var ret := at + 2;
      if readLen + ret + hdrLen > 188 {
        readLen := 188 - ret - hdrLen;
      }
      var padLen := 188 - ret - hdrLen - readLen;
      assert data[..4] == sent[..4];
      WriteStuffing(data, ret - 2, padLen, count, pid, pos == 0);
      WriteTail(count, pid, data, ret + padLen, readLen, padBeforeHeader, sent);
    }

    /** Fills data with the next packet; zero means the frame has been sent. */
    method GetPesData(count: nat, pid: nat, data: array<Byte>, len: nat) returns (n: nat)
      requires data.Length == TS_PACKET_LEN <= len && pos <= |frame.es| && frame.Sendable()
      requires count < 16 && pid < 0x2000
      modifies this`pos, data
      ensures n == 0 <==> old(pos) == |frame.es|
      ensures n == 0 ==> pos == old(pos) && data[..] == old(data[..])
      ensures n != 0 ==>
                && n == TS_PACKET_LEN
                && data[..] == Packet(frame, old(pos), pid, count)
                && pos == old(pos) + ReadLen(frame, old(pos))
    {
      hide TsHeader, PesHeader, PcrField, Packet;
      if pos == |frame.es| {
        return 0;
      }
      var remain := |frame.es| - pos;
      var ret, hdrLen, padBeforeHeader := WriteHead(count, pid, data);
      var readLen := if remain > len then len else remain;
      if readLen + ret + hdrLen >= 188 {
        ghost var sent := data[..ret];
        readLen := 188 - ret;
        Memcpy(data, ret, frame.es[pos..pos + readLen]);
        assert data[..] == sent + frame.es[pos..pos + readLen];
        PacketFull(frame, pos, pid, count, sent);
      } else {
        readLen := WritePadded(count, pid, data, ret, hdrLen, padBeforeHeader, len);
      }
      pos := pos + readLen;
      n := 188;
    }
  }
}
