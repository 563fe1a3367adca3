/**
 Program specific information: the PAT and PMT packets that open every slice
 (ISO/IEC 13818-1 sections 2.4.4.3 and 2.4.4.8).
 */
module Psi {
  import opened Bytes
  import opened MpegTs
  import opened Crc

  const PAT_PID: nat := 0x0000
  const PMT_PID: nat := 0x1000
  const VIDEO_PID: nat := 0x100
  const AUDIO_PID: nat := 0x101
  const PRIVATE_DATA: Byte := 0x06

  const PAT_BODY: seq<Byte> := [0x00, 0x80, 0x0d, 0x00, 0x01, 0xC1, 0, 0, 0, 0x01, 0xF0, 0x00]

  /** The arguments of LinkWritePMT; a stream type of zero means there is no such stream. */
  datatype PmtArg = PmtArg(video: Byte, audio: Byte, g711: Byte, sampleRate: nat)

  function VideoEntry(arg: PmtArg): seq<Byte> {
    if arg.video == 0 then [] else [arg.video, 0xE1, 0x00, 0xF0, 0x00]
  }

  function AudioEntry(arg: PmtArg): seq<Byte> {
    if arg.audio == 0 then []
    else if arg.audio == PRIVATE_DATA then
      [arg.audio, 0xE1, 0x01, 0xF0, 0x06, 15, 4, arg.g711, arg.sampleRate / 256 % 256, arg.sampleRate % 256, 0]
    else [arg.audio, 0xE1, 0x01, 0xF0, 0x00]
  }

  function PmtBody(arg: PmtArg): (r: seq<Byte>)
    ensures 12 <= |r| <= 28
  {
    var n := 12 + |VideoEntry(arg)| + |AudioEntry(arg)|;
    [0x02, 0x80, n - 3 + 4, 0x00, 0x01, 0xC1, 0, 0, 0xE1, 0x00, 0xF0, 0x00] + VideoEntry(arg) + AudioEntry(arg)
  }

  function Section(body: seq<Byte>): (r: seq<Byte>)
    ensures |r| == |body| + 4
  {
    body + CrcBytes(BitwiseCrc(0xffff_ffff, body))
  }

  /** The packet after writeTable's memset: written bytes up to the reported length, then 0xff. */
  function TablePacket(pid: nat, count: nat, section: seq<Byte>, reported: nat): (r: seq<Byte>)
    requires pid < 0x2000 && count < 16 && reported <= 5 + |section| <= 188
    ensures |r| == TS_PACKET_LEN
  {
    (TsHeader(true, count, pid, JUST_PAYLOAD) + [0] + section)[..reported] + Fill(0xff, 188 - reported)
  }

  /** LinkWritePMT gives up five bytes of its result when one stream is missing. */
  function PmtReported(arg: PmtArg): (r: nat)
    ensures r <= 5 + |Section(PmtBody(arg))| <= 188
  {
    5 + |Section(PmtBody(arg))| - (if arg.video == 0 || arg.audio == 0 then 5 else 0)
  }

  function PatPacket(count: nat): (r: seq<Byte>)
    requires count < 16
    ensures |r| == TS_PACKET_LEN
  {
    TablePacket(PAT_PID, count, Section(PAT_BODY), 21)
  }

  function PmtPacket(arg: PmtArg, count: nat): (r: seq<Byte>)
    requires count < 16
    ensures |r| == TS_PACKET_LEN
  {
    TablePacket(PMT_PID, count, Section(PmtBody(arg)), PmtReported(arg))
  }

  // ---- the writers

  /** Header, pointer field, body and CRC, as both table writers lay them out. */
  method WriteSection(buf: array<Byte>, count: nat, pid: nat, body: seq<Byte>) returns (n: nat)
    requires buf.Length == TS_PACKET_LEN && 9 + |body| <= TS_PACKET_LEN && count < 16 && pid < 0x2000
    modifies buf
    ensures n == 5 + |Section(body)|
    ensures buf[..n] == TsHeader(true, count, pid, JUST_PAYLOAD) + [0] + Section(body)
  {
    ghost var was := buf[..];
    var k := WriteTsHeader(buf, true, count, pid, JUST_PAYLOAD);
    Memcpy(buf, 4, [0]);
    ghost var mid := buf[..];
    Memcpy(buf, 5, body);
    SpliceAt(mid, 5, body);
    assert buf[5..5 + |body|] == body;
    var crc := Crc32(buf, 5, |body|);
    Memcpy(buf, 5 + |body|, CrcBytes(crc));
    n := 9 + |body|;
    SpliceFour(was, TsHeader(true, count, pid, JUST_PAYLOAD), [0], body, CrcBytes(crc));
  }

  method WritePat(buf: array<Byte>, count: nat) returns (n: nat)
    requires buf.Length == TS_PACKET_LEN && count < 16
    modifies buf
    ensures n == 21 && buf[..n] == TsHeader(true, count, PAT_PID, JUST_PAYLOAD) + [0] + Section(PAT_BODY)
  {
    n := WriteSection(buf, count, PAT_PID, PAT_BODY);
  }

  /** The body of LinkWritePMT up to the CRC, and what the function subtracts from its result. */
  method BuildPmtBody(arg: PmtArg) returns (body: seq<Byte>, noAudioOrVideo: int)
    ensures body == PmtBody(arg)
    ensures noAudioOrVideo == if arg.video == 0 || arg.audio == 0 then -5 else 0
  {
    hide AudioEntry;
    AudioEntryIs(arg);
    body := [0x02, 0x80, 0x17, 0x00, 0x01, 0xC1, 0, 0, 0xE1, 0x00, 0xF0, 0x00];
    noAudioOrVideo := 0;
    ghost var fixed := body;
    if arg.video != 0 {
      body := body + [arg.video, 0xE1, 0x00, 0xF0, 0x00];
    } else {
      body := body[2 := 0x12];
      noAudioOrVideo := -5;
    }
    assert body == fixed[2 := body[2]] + VideoEntry(arg);
    if arg.audio != 0 {
      body := AddAudioEntry(body, arg);
    } else {
      body := body[2 := 0x12];
      noAudioOrVideo := -5;
    }
    assert body == fixed[2 := body[2]] + VideoEntry(arg) + AudioEntry(arg);
    body := body[2 := |body| - 3 + 4];
  }

  lemma AudioEntryIs(arg: PmtArg)
    ensures |AudioEntry(arg)| <= 11 && (arg.audio == 0 ==> AudioEntry(arg) == [])
  {}

  /** The entry of the audio stream, with a descriptor for private data whose length is filled in afterwards. */
  method AddAudioEntry(front: seq<Byte>, arg: PmtArg) returns (body: seq<Byte>)
    requires arg.audio != 0
    ensures body == front + AudioEntry(arg)
  {
    body := front + [arg.audio, 0xE1, 0x01, 0xF0];
    var esInfoLen := |body|;
    body := body + [0x00];
    if arg.audio == PRIVATE_DATA {
      body := body + [15, 4, arg.g711, arg.sampleRate / 256 % 256, arg.sampleRate % 256, 0];
      body := body[esInfoLen := |body| - esInfoLen - 1];
    }
  }

  method WritePmt(buf: array<Byte>, count: nat, arg: PmtArg) returns (n: nat)
    requires buf.Length == TS_PACKET_LEN && count < 16 && (arg.video != 0 || arg.audio != 0)
    modifies buf
    ensures n == PmtReported(arg)
    ensures buf[..n] == (TsHeader(true, count, PMT_PID, JUST_PAYLOAD) + [0] + Section(PmtBody(arg)))[..n]
  {
    var body, noAudioOrVideo := BuildPmtBody(arg);
    var len := WriteSection(buf, count, PMT_PID, body);
    n := len + noAudioOrVideo;
    assert buf[..n] == buf[..len][..n];
  }

  // ---- the receiver

  datatype Table = Table(id: Byte, content: seq<Byte>)

  /** A section in the payload of one packet: pointer field, length, CRC over the whole section. */
  function ParseSection(payload: seq<Byte>): Option<Table> {
    if |payload| < 4 || payload[0] != 0 then None
    else
      var length := payload[2] as int % 16 * 256 + payload[3];
      if length < 4 || 4 + length > |payload| || payload[2] / 128 != 1 then None
      else if BitwiseCrc(0xffff_ffff, payload[1..4 + length]) != 0 then None
      else Some(Table(payload[1], payload[4..length]))
  }

  /** The stream loop of a PMT: pairs of stream type and PID. */
  function ParseStreams(b: seq<Byte>): seq<(Byte, nat)>
    decreases |b|
  {
    if |b| < 5 then []
    else
      var info := b[3] as int % 16 * 256 + b[4];
      [(b[0], b[1] as int % 32 * 256 + b[2])] + (if 5 + info > |b| then [] else ParseStreams(b[5 + info..]))
  }

  /** The section bytes a receiver finds at the place and length the packet announces. */
  function SectionBytes(packet: seq<Byte>): seq<Byte>
    requires |packet| == TS_PACKET_LEN
  {
    var end := 8 + packet[6] as int % 16 * 256 + packet[7];
    if end > TS_PACKET_LEN then [] else packet[5..end]
  }

  lemma Layout<T>(h: seq<T>, z: seq<T>, section: seq<T>, fill: seq<T>)
    requires |h| == 4 && |z| == 1 && |section| >= 7
    ensures (h + z + section + fill)[4..] == z + section + fill
    ensures (z + section + fill)[1..1 + |section|] == section
    ensures (h + z + section + fill)[5..5 + |section|] == section
    ensures forall i :: 0 <= i < |section| ==>
            (z + section + fill)[1 + i] == section[i] == (h + z + section + fill)[5 + i]
  {}

  /** A complete section is found at its announced length and passes the CRC check. */
  lemma SectionParses(pid: nat, count: nat, body: seq<Byte>)
    requires pid < 0x2000 && count < 16 && 4 <= |body| <= 179
    requires body[1] == 0x80 && body[2] == |body| - 3 + 4
    ensures ParseSection(TablePacket(pid, count, Section(body), 5 + |Section(body)|)[4..])
            == Some(Table(body[0], body[3..]))
    ensures SectionBytes(TablePacket(pid, count, Section(body), 5 + |Section(body)|)) == Section(body)
  {
    hide TsHeader, ParseSection, CrcBytes, BitwiseCrc, Fill;
    var section := Section(body);
    var h, fill := TsHeader(true, count, pid, JUST_PAYLOAD), Fill(0xff, 183 - |section|);
    var packet := TablePacket(pid, count, section, 5 + |section|);
    assert packet == h + [0] + section + fill;
    Layout(h, [0], section, fill);
    ResidueIsZero(0xffff_ffff, body);
    PayloadParses(packet[4..], body, section);
  }

  lemma PayloadParses(payload: seq<Byte>, body: seq<Byte>, section: seq<Byte>)
    requires 4 <= |body| <= 179 && body[1] == 0x80 && body[2] == |body| - 3 + 4
    requires |section| == |body| + 4 && section[..|body|] == body && BitwiseCrc(0xffff_ffff, section) == 0
    requires |payload| == 184 && payload[0] == 0 && payload[1..1 + |section|] == section
    ensures ParseSection(payload) == Some(Table(body[0], body[3..]))
  {
    hide BitwiseCrc;
    assert forall i :: 0 <= i < 3 ==> payload[1 + i] == section[i] == body[i];
    assert payload[4..|body| + 1] == section[3..|body|] == section[..|body|][3..];
  }

  /** The PAT: one intact section that maps program 1 to the PMT PID. */
  lemma PatIsIntact(count: nat)
    requires count < 16
    ensures ParseSection(PatPacket(count)[4..]) == Some(Table(0, [0x00, 0x01, 0xC1, 0, 0, 0, 0x01, 0xF0, 0x00]))
    ensures SectionBytes(PatPacket(count)) == Section(PAT_BODY)
  {
    SectionParses(PAT_PID, count, PAT_BODY);
  }

  /** The PMT with both streams: one intact section that announces both PIDs. */
  lemma PmtIsIntact(arg: PmtArg, count: nat)
    requires count < 16 && arg.video != 0 && arg.audio != 0
    ensures ParseSection(PmtPacket(arg, count)[4..]).Some?
    ensures var table := ParseSection(PmtPacket(arg, count)[4..]).value;
            && table.id == 2 && |table.content| >= 9 && ProgramOf(table.content) == 1
            && ClockPid(table.content) == VIDEO_PID
            && table.content[2] % 2 == 1
            && ParseStreams(table.content[9..]) == [(arg.video, VIDEO_PID), (arg.audio, AUDIO_PID)]
  {
    hide ParseSection, Section, PmtBody, PmtPacket, ParseStreams, VideoEntry, AudioEntry;
    PmtBodyFacts(arg);
    SectionParses(PMT_PID, count, PmtBody(arg));
    PmtPacketIs(arg, count);
    var content := PmtBody(arg)[3..];
    assert content[..9] == PmtBody(arg)[3..12];
    FixedContent(content);
    StreamsParse(arg);
  }

  lemma PmtPacketIs(arg: PmtArg, count: nat)
    requires count < 16 && arg.video != 0 && arg.audio != 0
    ensures PmtPacket(arg, count) == TablePacket(PMT_PID, count, Section(PmtBody(arg)), 5 + |Section(PmtBody(arg))|)
  {}

  lemma FixedContent(content: seq<Byte>)
    requires |content| >= 9 && content[..9] == [0, 1, 0xC1, 0, 0, 0xE1, 0x00, 0xF0, 0x00]
    ensures ProgramOf(content) == 1 && ClockPid(content) == VIDEO_PID && content[2] % 2 == 1
  {
    assert forall i :: 0 <= i < 9 ==> content[i] == content[..9][i];
  }

  /** The program a PMT is for. */
  function ProgramOf(content: seq<Byte>): nat
    requires |content| >= 9
  {
    content[0] as int * 256 + content[1]
  }

  /** The PID a PMT says the clock is on. */
  function ClockPid(content: seq<Byte>): nat
    requires |content| >= 9
  {
    content[5] as int % 32 * 256 + content[6]
  }

  lemma PmtBodyFacts(arg: PmtArg)
    ensures var body := PmtBody(arg);
            body[0] == 2 && body[1] == 0x80 && body[2] == |body| - 3 + 4
            && body[3..][9..] == VideoEntry(arg) + AudioEntry(arg) && body[|body| - 1] == 0
            && body[3..12] == [0, 1, 0xC1, 0, 0, 0xE1, 0x00, 0xF0, 0x00]
  {}

  lemma StreamsParse(arg: PmtArg)
    requires arg.video != 0 && arg.audio != 0
    ensures ParseStreams(VideoEntry(arg) + AudioEntry(arg)) == [(arg.video, VIDEO_PID), (arg.audio, AUDIO_PID)]
  {
    var rest := AudioEntry(arg);
    assert (VideoEntry(arg) + rest)[5..] == rest;
    assert rest[|rest|..] == [];
    assert ParseStreams(rest) == [(arg.audio, AUDIO_PID)];
  }

  /** The section arrives as it was built exactly when both streams are present. */
  lemma PmtIntactExact(arg: PmtArg, count: nat)
    requires count < 16 && (arg.video != 0 || arg.audio != 0)
    ensures SectionBytes(PmtPacket(arg, count)) == Section(PmtBody(arg)) <==> arg.video != 0 && arg.audio != 0
  {
    var body := PmtBody(arg);
    if arg.video != 0 && arg.audio != 0 {
      SectionParses(PMT_PID, count, body);
    } else {
      PmtBodyFacts(arg);
      Truncated(TsHeader(true, count, PMT_PID, JUST_PAYLOAD), PmtBody(arg), Section(PmtBody(arg)),
                PmtPacket(arg, count));
    }
  }

  lemma Truncated(h: seq<Byte>, body: seq<Byte>, section: seq<Byte>, packet: seq<Byte>)
    requires |h| == 4 && 12 <= |body| <= 28 && |section| == |body| + 4 && section[..|body|] == body
    requires body[1] == 0x80 && body[2] == |body| + 1 && body[|body| - 1] == 0
    requires |packet| == TS_PACKET_LEN && packet == (h + [0] + section)[..|section|] + Fill(0xff, 188 - |section|)
    ensures SectionBytes(packet) != section
  {
    assert forall i :: 5 <= i < |section| ==> packet[i] == section[i - 5];
    assert packet[6] == section[1] == body[1] && packet[7] == section[2] == body[2];
    assert packet[5..5 + |section|][|body| - 1] == packet[|section|] == 0xff;
    assert section[|body| - 1] == section[..|body|][|body| - 1] == 0;
  }
}
