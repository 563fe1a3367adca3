/**
 A receiver written from ISO/IEC 13818-1: sections 2.4.3.2 (transport packet),
 2.4.3.4 (adaptation field) and 2.4.3.6 (PES packet). It shares no definition
 with the packetiser, and undoes it.
 */
module TsDemux {
  import opened Bytes
  import opened MpegTs

  datatype TsPacket = TsPacket(start: bool, pid: nat, counter: nat, pcr: Option<nat>, payload: seq<Byte>)

  datatype PesUnit = PesUnit(streamId: Byte, pts: nat, data: seq<Byte>)

  /** 33-bit program_clock_reference_base; the 6 reserved bits and the extension follow it. */
  function PcrBase(b: seq<Byte>): nat
    requires |b| == 6
  {
    b[0] as int * 0x200_0000 + b[1] as int * 0x2_0000 + b[2] as int * 0x200 + b[3] as int * 2 + b[4] / 128
  }

  /** The adaptation field after its length byte: flags, optional PCR, stuffing bytes 0xff only. */
  function ParseAdaptation(a: seq<Byte>): Option<Option<nat>> {
    if a == [] then Some(None)
    else if a[0] / 16 % 2 == 1 then
      if |a| < 7 || a[0] % 16 != 0 then None
      else if forall i :: 7 <= i < |a| ==> a[i] == 0xff then Some(Some(PcrBase(a[1..7])))
      else None
    else if a[0] % 16 == 0 && forall i :: 1 <= i < |a| ==> a[i] == 0xff then Some(None)
    else None
  }

  function ParsePacket(p: seq<Byte>): Option<TsPacket> {
    if |p| != 188 || p[0] != 0x47 || p[1] >= 0x80 || p[3] >= 0x40 then None
    else
      var start := p[1] / 0x40 == 1;
      var pid := p[1] as int % 0x20 * 256 + p[2];
      var control := p[3] / 16;
      if control == 1 then Some(TsPacket(start, pid, p[3] % 16, None, p[4..]))
      else if control == 3 && p[4] <= 182 then
        match ParseAdaptation(p[5..5 + p[4]])
        case None => None
        case Some(pcr) => Some(TsPacket(start, pid, p[3] % 16, pcr, p[5 + p[4]..]))
      else None
  }

  /** The 33-bit PTS, checking the prefix 0010 and the three marker bits. */
  function ParsePts(b: seq<Byte>): Option<nat>
    requires |b| == 5
  {
    if b[0] / 16 != 2 || b[0] % 2 != 1 || b[2] % 2 != 1 || b[4] % 2 != 1 then None
    else Some(b[0] as int / 2 % 8 * 0x4000_0000 + b[1] as int * 0x40_0000 + b[2] as int / 2 * 0x8000
              + b[3] as int * 0x80 + b[4] / 2)
  }

  /** One PES packet. A zero length is legal for video only; any other length must match. */
  function ParsePes(b: seq<Byte>): Option<PesUnit> {
    if |b| < 14 || b[..3] != [0, 0, 1] || b[6] / 64 != 2 || b[7] != 0x80 || b[8] != 5 then None
    else
      var length := b[4] as int * 256 + b[5];
      if length == 0 && !(0xE0 <= b[3] <= 0xEF) then None
      else if length != 0 && |b| != 6 + length then None
      else
        match ParsePts(b[9..14])
        case None => None
        case Some(pts) => Some(PesUnit(b[3], pts, b[14..]))
  }

  /** Each packet of a stream decoded on its own; none if one of them is malformed. */
  function ParseAll(ps: seq<seq<Byte>>): Option<seq<TsPacket>> {
    if ps == [] then Some([])
    else
      match (ParsePacket(ps[0]), ParseAll(ps[1..]))
      case (Some(p), Some(rest)) => Some([p] + rest)
      case _ => None
  }

  /** The payload of a run of packets. */
  function Payload(ps: seq<TsPacket>): seq<Byte> {
    if ps == [] then [] else ps[0].payload + Payload(ps[1..])
  }

  // ---- one field at a time

  lemma PtsBits(d: nat, c: nat, b: nat, a: nat, z: nat)
    requires d < 8 && c < 256 && b < 128 && a < 256 && z < 128
    ensures ParsePts([0x21 + 2 * d, c, 1 + 2 * b, a, 1 + 2 * z])
            == Some(d * 0x4000_0000 + c * 0x40_0000 + b * 0x8000 + a * 0x80 + z)
  {
    assert (0x21 + 2 * d) / 16 == 2 && (0x21 + 2 * d) / 2 % 8 == d;
    assert (1 + 2 * b) / 2 == b && (1 + 2 * z) / 2 == z;
  }

  /** A number is its five PTS digits plus a multiple of 2^33. */
  lemma PtsDigits(pts: int)
    ensures pts % 0x2_0000_0000 == pts / 0x4000_0000 % 8 * 0x4000_0000 + pts / 0x40_0000 % 256 * 0x40_0000
                                   + pts / 0x8000 % 128 * 0x8000 + pts / 0x80 % 256 * 0x80 + pts % 128
  {
    var a := pts / 0x80;
    var b := a / 0x100;
    var c := b / 0x80;
    var d := c / 0x100;
    assert pts / 0x8000 == b && pts / 0x40_0000 == c && pts / 0x4000_0000 == d;
    var r := d % 8 * 0x4000_0000 + c % 256 * 0x40_0000 + b % 128 * 0x8000 + a % 256 * 0x80 + pts % 128;
    assert pts == d / 8 * 0x2_0000_0000 + r;
  }

  lemma PtsRoundTrip(pts: int)
    ensures ParsePts(PtsField(pts)) == Some(pts % 0x2_0000_0000)
  {
    PtsDigits(pts);
    PtsBits(pts / 0x4000_0000 % 8, pts / 0x40_0000 % 256, pts / 0x8000 % 128, pts / 0x80 % 256, pts % 128);
  }

  /** A number is its five PCR digits plus a multiple of 2^33. */
  lemma PcrDigits(pcr: int)
    ensures pcr % 0x2_0000_0000 == pcr / 0x200_0000 % 256 * 0x200_0000 + pcr / 0x2_0000 % 256 * 0x2_0000
                                   + pcr / 0x200 % 256 * 0x200 + pcr / 2 % 256 * 2 + pcr % 2
  {
    var a := pcr / 2;
    var b := a / 0x100;
    var c := b / 0x100;
    var d := c / 0x100;
    assert pcr / 0x200 == b && pcr / 0x2_0000 == c && pcr / 0x200_0000 == d;
    var r := d % 256 * 0x200_0000 + c % 256 * 0x2_0000 + b % 256 * 0x200 + a % 256 * 2 + pcr % 2;
    assert pcr == d / 256 * 0x2_0000_0000 + r;
  }

  lemma PcrRoundTrip(pcr: int)
    ensures PcrBase(PcrField(pcr)[2..]) == pcr % 0x2_0000_0000
  {
    PcrDigits(pcr);
    var z := pcr % 2;
    assert (z * 128 + 0x7e) / 128 == z;
    var b := PcrField(pcr)[2..];
    assert b[0] == pcr / 0x200_0000 % 256 && b[1] == pcr / 0x2_0000 % 256;
    assert b[2] == pcr / 0x200 % 256 && b[3] == pcr / 2 % 256 && b[4] == z * 128 + 0x7e;
  }

  /** The PES that a frame is sent as, read back: stream, PTS modulo 2^33, delimiter and stream data. */
  lemma PesRoundTrip(f: Frame)
    requires f.Sendable()
    ensures ParsePes(PesHeader(f) + f.es) ==
            Some(PesUnit(f.streamId, f.pts % 0x2_0000_0000, Aud(f.format) + f.es))
  {
    var b := PesHeader(f) + f.es;
    var prefix := PesPrefix(f.streamId, PesLength(f));
    assert b[..9] == prefix;
    assert b[..3] == prefix[..3] == [0, 0, 1];
    assert forall i :: 0 <= i < 9 ==> b[i] == prefix[i];
    assert b[4] as int * 256 + b[5] == PesLength(f);
    assert b[9..14] == PtsField(f.pts);
    assert b[14..] == Aud(f.format) + f.es;
    PtsRoundTrip(f.pts);
  }

  // ---- one packet

  lemma HeaderParses(start: bool, count: nat, pid: nat, adaptation: nat, p: seq<Byte>)
    requires count < 16 && pid < 0x2000 && adaptation in {1, 3}
    requires |p| == 188 && p[..4] == TsHeader(start, count, pid, adaptation)
    ensures p[0] == 0x47 && p[1] < 0x80 && p[3] < 0x40 && p[3] / 16 == adaptation && p[3] % 16 == count
    ensures (p[1] / 0x40 == 1) == start && p[1] as int % 0x20 * 256 + p[2] == pid
  {
    assert forall i :: 0 <= i < 4 ==> p[i] == TsHeader(start, count, pid, adaptation)[i];
  }

  lemma PlainParses(start: bool, count: nat, pid: nat, rest: seq<Byte>)
    requires count < 16 && pid < 0x2000 && |rest| == 184
    ensures ParsePacket(TsHeader(start, count, pid, JUST_PAYLOAD) + rest)
            == Some(TsPacket(start, pid, count, None, rest))
  {
    var p := TsHeader(start, count, pid, JUST_PAYLOAD) + rest;
    HeaderParses(start, count, pid, JUST_PAYLOAD, p);
    assert p[4..] == rest;
  }

  lemma AdaptationParses(start: bool, count: nat, pid: nat, field: seq<Byte>, rest: seq<Byte>)
    requires count < 16 && pid < 0x2000 && |field| >= 1 && field[0] == |field| - 1 <= 182 && |field| + |rest| == 184
    requires ParseAdaptation(field[1..]).Some?
    ensures ParsePacket(TsHeader(start, count, pid, BOTH) + field + rest) ==
            Some(TsPacket(start, pid, count, ParseAdaptation(field[1..]).value, rest))
  {
    var p := TsHeader(start, count, pid, BOTH) + field + rest;
    HeaderParses(start, count, pid, BOTH, p);
    assert p[4] == field[0];
    assert p[5..5 + p[4]] == field[1..];
    assert p[5 + p[4]..] == rest;
  }

  lemma StuffingParses(n: nat)
    requires 2 <= n <= 183
    ensures ParseAdaptation(Stuffing(n)[1..]) == Some(None)
  {
    assert Stuffing(n)[1..] == [0] + Fill(0xff, n - 2);
  }

  lemma PcrParses(pcr: int)
    ensures ParseAdaptation(PcrField(pcr)[1..]) == Some(Some(pcr % 0x2_0000_0000))
  {
    PcrRoundTrip(pcr);
    assert PcrField(pcr)[1..][1..7] == PcrField(pcr)[2..];
  }

  /** What the code puts between the PES header and the data when the PCR frame cannot fill its packet. */
  function Intruder(f: Frame, pos: nat): seq<Byte>
    requires pos < |f.es|
  {
    var fill := Room(f, pos) - ReadLen(f, pos);
    if Pcr(f, pos) != [] && fill != 0 then Stuffing(fill) else []
  }

  /** Every packet parses, and carries its part of the PES plus, in one case, stuffing the receiver cannot see. */
  lemma PacketParses(f: Frame, pos: nat, pid: nat, count: nat)
    requires pos < |f.es| && pid < 0x2000 && count < 16
    ensures ParsePacket(Packet(f, pos, pid, count)) ==
            Some(TsPacket(pos == 0, pid, count,
                          if pos == 0 && f.withPcr then Some(f.pts % 0x2_0000_0000) else None,
                          Head(f, pos) + Intruder(f, pos) + f.es[pos..pos + ReadLen(f, pos)]))
  {
    hide PesHeader, Stuffing, PcrField, ParsePacket, ParseAdaptation, TsHeader;
    var body := f.es[pos..pos + ReadLen(f, pos)];
    var fill := Room(f, pos) - ReadLen(f, pos);
    var rest := Head(f, pos) + Intruder(f, pos) + body;
    var header := TsHeader(pos == 0, count, pid, Adaptation(f, pos));
    if Pcr(f, pos) != [] {
      assert PacketRest(f, pos) == PcrField(f.pts) + rest;
      PcrParses(f.pts);
      PcrLength(f.pts);
      AdaptationParses(true, count, pid, PcrField(f.pts), rest);
      assert header + PacketRest(f, pos) == header + PcrField(f.pts) + rest;
    } else if fill == 0 {
      assert PacketRest(f, pos) == rest;
      PlainParses(pos == 0, count, pid, rest);
    } else {
      assert PacketRest(f, pos) == Stuffing(fill) + rest;
      StuffingParses(fill);
      StuffingLength(fill);
      AdaptationParses(pos == 0, count, pid, Stuffing(fill), rest);
      assert header + PacketRest(f, pos) == header + Stuffing(fill) + rest;
    }
  }

  lemma PcrLength(pcr: int)
    ensures PcrField(pcr)[0] == |PcrField(pcr)| - 1
  {}

  lemma StuffingLength(n: nat)
    requires 2 <= n <= 256
    ensures Stuffing(n)[0] == |Stuffing(n)| - 1
  {}

  // ---- one frame

  /** A run of packets of one PES: only the first starts it or has a PCR, the counters follow each other modulo 16. */
  ghost predicate OneUnit(ps: seq<TsPacket>, pid: nat, count: nat) {
    && |ps| > 0 && ps[0].start
    && (forall i :: 1 <= i < |ps| ==> !ps[i].start && ps[i].pcr.None?)
    && (forall i :: 0 <= i < |ps| ==> ps[i].pid == pid && ps[i].counter == (count + i) % 16)
  }

  /** Packets after the first of a PES. */
  ghost predicate Continues(ps: seq<TsPacket>, pid: nat, count: nat) {
    forall i :: 0 <= i < |ps| ==>
      !ps[i].start && ps[i].pcr.None? && ps[i].pid == pid && ps[i].counter == (count + i) % 16
  }

  lemma CounterShift(count: nat, i: nat)
    requires i > 0
    ensures ((count + 1) % 16 + (i - 1)) % 16 == (count + i) % 16
  {}

  lemma ContinuesCons(p: TsPacket, rest: seq<TsPacket>, pid: nat, count: nat)
    requires count < 16 && p.pid == pid && p.counter == count && Continues(rest, pid, (count + 1) % 16)
    ensures p.start ==> OneUnit([p] + rest, pid, count)
    ensures !p.start && p.pcr.None? ==> Continues([p] + rest, pid, count)
  {
    var ps := [p] + rest;
    forall i | 1 <= i < |ps|
      ensures !ps[i].start && ps[i].pcr.None? && ps[i].pid == pid && ps[i].counter == (count + i) % 16
    {
      assert ps[i] == rest[i - 1];
      CounterShift(count, i);
    }
  }

  lemma SplitAfter<T>(a: seq<T>, b: seq<T>, n: nat)
    requires n <= |b|
    ensures (a + b[0..n]) + b[n..] == a + b
  {}

  lemma ParseAllCons(p: seq<Byte>, rest: seq<seq<Byte>>)
    requires ParsePacket(p).Some? && ParseAll(rest).Some?
    ensures ParseAll([p] + rest) == Some([ParsePacket(p).value] + ParseAll(rest).value)
    ensures Payload([ParsePacket(p).value] + ParseAll(rest).value)
            == ParsePacket(p).value.payload + Payload(ParseAll(rest).value)
  {
    assert ([p] + rest)[1..] == rest;
    assert ([ParsePacket(p).value] + ParseAll(rest).value)[1..] == ParseAll(rest).value;
  }

  lemma {:induction false} TailParses(f: Frame, pos: nat, pid: nat, count: nat)
    requires 0 < pos <= |f.es| && pid < 0x2000 && count < 16
    ensures ParseAll(Packets(f, pos, pid, count)).Some?
    ensures var ps := ParseAll(Packets(f, pos, pid, count)).value;
            Payload(ps) == f.es[pos..] && Continues(ps, pid, count)
    decreases |f.es| - pos
  {
    hide Packet, ParsePacket, PesHeader, Room, ReadLen, PcrField;
    if pos < |f.es| {
      var next := pos + ReadLen(f, pos);
      var p, rest := Packet(f, pos, pid, count), Packets(f, next, pid, (count + 1) % 16);
      PacketParses(f, pos, pid, count);
      TailParses(f, next, pid, (count + 1) % 16);
      ParseAllCons(p, rest);
      ContinuesCons(ParsePacket(p).value, ParseAll(rest).value, pid, count);
      assert Packets(f, pos, pid, count) == [p] + rest;
      assert ParsePacket(p).value.payload == f.es[pos..next];
      assert f.es[pos..] == f.es[pos..next] + f.es[next..];
    }
  }

  /** What a receiver collects from the packets of one frame. */
  lemma FrameParses(f: Frame, pid: nat, count: nat)
    requires f.es != [] && pid < 0x2000 && count < 16
    ensures ParseAll(Packets(f, 0, pid, count)).Some?
    ensures var ps := ParseAll(Packets(f, 0, pid, count)).value;
            && OneUnit(ps, pid, count)
            && Payload(ps) == PesHeader(f) + Intruder(f, 0) + f.es
            && ps[0].pcr == (if f.withPcr then Some(f.pts % 0x2_0000_0000) else None)
  {
    hide Packet, ParsePacket, PesHeader, Room, ReadLen, Pcr, Intruder;
    var next := ReadLen(f, 0);
    var p, rest := Packet(f, 0, pid, count), Packets(f, next, pid, (count + 1) % 16);
    PacketParses(f, 0, pid, count);
    TailParses(f, next, pid, (count + 1) % 16);
    ParseAllCons(p, rest);
    ContinuesCons(ParsePacket(p).value, ParseAll(rest).value, pid, count);
    assert Packets(f, 0, pid, count) == [p] + rest;
    SplitAfter(PesHeader(f) + Intruder(f, 0), f.es, next);
  }

  /** The condition the code assumes of the frame that carries the PCR: it fills its first packet. */
  predicate FillsPcrPacket(f: Frame) {
    f.withPcr ==> |f.es| >= 176 - |PesHeader(f)|
  }

  /**
   The round trip: for every non-empty frame the receiver gets back the stream
   id, the PTS modulo 2^33, the PCR base, and delimiter plus stream data.
   */
  lemma FrameRoundTrip(f: Frame, pid: nat, count: nat)
    requires f.es != [] && f.Sendable() && FillsPcrPacket(f) && pid < 0x2000 && count < 16
    ensures ParseAll(Packets(f, 0, pid, count)).Some?
    ensures var ps := ParseAll(Packets(f, 0, pid, count)).value;
            && OneUnit(ps, pid, count)
            && ps[0].pcr == (if f.withPcr then Some(f.pts % 0x2_0000_0000) else None)
            && ParsePes(Payload(ps)) == Some(PesUnit(f.streamId, f.pts % 0x2_0000_0000, Aud(f.format) + f.es))
  {
    hide PesHeader, ParsePes, Packets, OneUnit, ParseAll, Payload, PcrField;
    FrameParses(f, pid, count);
    PesRoundTrip(f);
    assert Intruder(f, 0) == [];
    assert PesHeader(f) + [] + f.es == PesHeader(f) + f.es;
  }

  /** The condition is exact: a PCR frame that is too short always corrupts its PES. */
  lemma FrameRoundTripExact(f: Frame, pid: nat, count: nat)
    requires f.es != [] && pid < 0x2000 && count < 16
    ensures ParseAll(Packets(f, 0, pid, count)).Some?
    ensures Payload(ParseAll(Packets(f, 0, pid, count)).value) == PesHeader(f) + f.es <==> FillsPcrPacket(f)
  {
    hide PesHeader, ParsePes, Packets, OneUnit, ParseAll, Payload, PcrField;
    FrameParses(f, pid, count);
    assert |Intruder(f, 0)| == 0 <==> FillsPcrPacket(f);
    if FillsPcrPacket(f) {
      assert PesHeader(f) + [] + f.es == PesHeader(f) + f.es;
    }
  }
}
