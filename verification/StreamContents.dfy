/**
 What a receiver of a stored slice gets, in terms of the frames that were
 pushed: the tables announce the streams, and the units of each stream are its
 frames, with their times, behind a delimiter of the announced format.
 */
module StreamContents {
  import opened Bytes
  import opened MpegTs
  import opened TsDemux
  import opened Psi
  import opened TsMux
  import opened SliceRuns
  import opened StreamRuns

  const CLOCK: int := 0x2_0000_0000

  // ---- the frames of a stream

  /** The non-empty frames of a stream whose pushes did not fail. */
  function Delivered(arg: MuxArg, room: Room, evs: seq<Event>, video: bool): seq<Event>
    decreases |evs|
  {
    if evs == [] then []
    else
      var prev, ev := evs[..|evs| - 1], evs[|evs| - 1];
      Delivered(arg, room, prev, video)
      + if ev.Video? == video && ev.data != [] && MuxResult(arg, Run(arg, room, prev), ev) == 0 then [ev] else []
  }

  function PidFor(video: bool): (pid: nat)
    ensures pid in {AUDIO_PID, VIDEO_PID}
  {
    if video then 0x100 else 0x101
  }

  /** An access unit delimiter of the format, any slice type allowed, then the data; without a format the data alone. */
  predicate Delimited(b: seq<Byte>, data: seq<Byte>, format: VideoFormat) {
    match format
    case NoVideo => b == data
    case H264 =>
      && |b| == 6 + |data| && b[..4] == [0, 0, 0, 1] && b[6..] == data
      && b[4] / 128 == 0 && b[4] % 32 == 9 && b[5] / 32 == 7 && b[5] % 32 == 16
    case H265 =>
      && |b| == 7 + |data| && b[..4] == [0, 0, 0, 1] && b[7..] == data
      && b[4] / 128 == 0 && b[4] / 2 % 64 == 35 && b[4] % 2 == 0 && b[5] == 1 && b[6] / 32 == 2 && b[6] % 32 == 16
  }

  /** The unit is the event's: its time in units of 90 kHz, its stream id, and its bytes. */
  predicate IsUnitOf(u: PesUnit, ev: Event, arg: MuxArg) {
    && u.pts == 90 * ev.ms % CLOCK
    && if ev.Video? then u.streamId == 0xE0 && Delimited(u.data, ev.data, arg.video)
       else u.streamId == (if arg.audio == Aac then 0xC0 else 0xBD) && u.data == ev.data
  }

  ghost predicate FramesAre(frames: seq<Frame>, events: seq<Event>, arg: MuxArg) {
    && |frames| == |events|
    && forall i :: 0 <= i < |frames| ==> IsUnitOf(UnitOf(frames[i]), events[i], arg)
  }

  lemma FrameIs(arg: MuxArg, s: Slice, ev: Event)
    requires s.Valid()
    ensures IsUnitOf(UnitOf(FrameOf(arg, s, ev)), ev, arg)
  {
    var aud := Aud(arg.video);
    assert (aud + ev.data)[..|aud|] == aud && (aud + ev.data)[|aud|..] == ev.data;
    assert [] + ev.data == ev.data;
    assert arg.video != NoVideo ==> (aud + ev.data)[..4] == aud[..4] == [0, 0, 0, 1];
  }

  lemma {:induction false} FramesAreDelivered(arg: MuxArg, room: Room, evs: seq<Event>, video: bool)
    ensures FramesAre(StreamFrames(arg, room, evs, PidFor(video)), Delivered(arg, room, evs, video), arg)
    decreases |evs|
  {
    hide Run, WriteTables, FrameOf, UnitOf, IsUnitOf;
    if evs != [] {
      var prev, ev := evs[..|evs| - 1], evs[|evs| - 1];
      FramesAreDelivered(arg, room, prev, video);
      FrameIs(arg, Before(arg, room, evs), ev);
    }
  }

  /** What the receiver gets of a stream that was cut somewhere: its frames, the last one perhaps not whole. */
  ghost predicate Gets(us: seq<seq<Byte>>, events: seq<Event>, arg: MuxArg, all: bool) {
    && |us| <= |events| && (all ==> |us| == |events|)
    && forall i :: 0 <= i < (if all then |us| else |us| - 1) ==>
         ParsePes(us[i]).Some? && IsUnitOf(ParsePes(us[i]).value, events[i], arg)
  }

  lemma ReceivedGets(us: seq<seq<Byte>>, frames: seq<Frame>, events: seq<Event>, arg: MuxArg, pid: nat, start: nat,
                     n: nat)
    requires pid < 0x2000 && Received(us, frames, pid, start, n) && FramesAre(frames, events, arg)
    ensures Gets(us, events, arg, n == |StreamPackets(frames, pid, start)|)
  {
    hide StreamPackets, ParsePes, UnitOf, IsUnitOf;
    if n == |StreamPackets(frames, pid, start)| && frames != [] {
      forall i | 0 <= i < |frames|
        ensures i < |us| && ParsePes(us[i]) == Some(UnitOf(frames[i]))
      {
        FrontIsShorter(frames, i + 1, pid, start);
        assert Within(frames, pid, start, i, n);
      }
      assert frames[..|frames|] == frames;
      assert Within(frames, pid, start, |frames| - 1, n);
    }
  }

  lemma {:induction false} FrontIsShorter(frames: seq<Frame>, k: nat, pid: nat, start: nat)
    requires pid < 0x2000 && k <= |frames|
    ensures |StreamPackets(frames[..k], pid, start)| <= |StreamPackets(frames, pid, start)|
    decreases |frames|
  {
    hide Packets;
    if k == |frames| {
      assert frames[..k] == frames;
    } else {
      assert frames[..|frames| - 1][..k] == frames[..k];
      FrontIsShorter(frames[..|frames| - 1], k, pid, start);
    }
  }

  /**
   The units a receiver gets from the stored bytes are the frames pushed, in order, each with its time, stream id and
   data behind a delimiter of its format; a last one may be cut when the buffer was full.
   */
  lemma UnitsAreEvents(arg: MuxArg, room: Room, evs: seq<Event>, video: bool)
    requires forall i :: 0 <= i < |evs| ==> evs[i].Sendable()
    requires var frames := StreamFrames(arg, room, evs, PidFor(video)); frames != [] ==> FillsPcrPacket(frames[0])
    ensures var s := Run(arg, room, evs);
            var ps := ParseAll(Only(PidFor(video), Chunks(s.stored)));
            && ps.Some? && Units(ps.value).Some?
            && Gets(Units(ps.value).value, Delivered(arg, room, evs, video), arg, |s.stored| == 188 * |s.emitted|)
  {
    hide ParsePes, ParseAll, Units, Run, StreamFrames, StreamPackets, Only, Event.Sendable, FillsPcrPacket;
    hide FramesAre, Continuous, Received, Delivered;
    var pid := PidFor(video);
    var s, frames := Run(arg, room, evs), StreamFrames(arg, room, evs, pid);
    StoredRoundTrip(arg, room, evs, pid);
    FramesAreDelivered(arg, room, evs, video);
    var own, start := Only(pid, Chunks(s.stored)), Missed(arg, room, evs, pid);
    var us := Units(ParseAll(own).value).value;
    ReceivedGets(us, frames, Delivered(arg, room, evs, video), arg, pid, start, |own|);
    if |s.stored| == 188 * |s.emitted| {
      StreamIsSeparate(arg, room, evs, pid);
    } else {
      FewerAll(us, Delivered(arg, room, evs, video), arg, |own| == |StreamPackets(frames, pid, start)|);
    }
  }

  lemma FewerAll(us: seq<seq<Byte>>, events: seq<Event>, arg: MuxArg, all: bool)
    requires Gets(us, events, arg, all)
    ensures Gets(us, events, arg, false)
  {}

  // ---- the announcement

  /** The program map PID of program 1, the only one of a PAT. */
  function MapPid(content: seq<Byte>): Option<nat> {
    if |content| == 9 && content[5] as int * 256 + content[6] == 1
    then Some(content[7] as int % 32 * 256 + content[8]) else None
  }

  /** A PAT whose only program has its map on the PID. */
  predicate IsPat(packet: seq<Byte>, pid: nat)
    requires |packet| == 188
  {
    var pat := ParseSection(packet[4..]);
    PidOf(packet) == 0 && pat.Some? && pat.value.id == 0 && MapPid(pat.value.content) == Some(pid)
  }

  /** A PMT of program 1 that announces the two streams, and the clock on the video PID. */
  predicate IsPmt(packet: seq<Byte>, arg: MuxArg)
    requires |packet| == 188
  {
    var pmt := ParseSection(packet[4..]);
    && pmt.Some? && pmt.value.id == 2 && |pmt.value.content| >= 9 && ProgramOf(pmt.value.content) == 1
    && ClockPid(pmt.value.content) == 0x100 && Announces(ParseStreams(pmt.value.content[9..]), arg)
  }

  /** A slice that found its buffer in time starts with the PAT and, where that says, the PMT of both streams. */
  lemma StartsWithTables(arg: MuxArg, room: Room, evs: seq<Event>)
    requires evs != [] && room.waits == 0 && room.cap >= 376 && arg.audio != NoAudio && arg.video != NoVideo
    ensures var stored := Run(arg, room, evs).stored;
            |stored| >= 376 && IsPat(stored[..188], PidOf(stored[188..376])) && IsPmt(stored[188..376], arg)
  {
    hide Run, PatPacket, PmtPacket, PmtArgOf, PidOf, ParseSection, ParseStreams, Announces, Section, MapPid,
      SectionBytes;
    FirstStored(arg, room, evs);
    TablePids(arg);
    PatIsIntact(0);
    PatMaps();
    TypesOf(arg);
    PmtIsIntact(PmtArgOf(arg), 0);
  }

  /** The video type first, then the audio type: 0x1b, 0x24 and 0x0f, 0x06 of ISO/IEC 13818-1 table 2-34. */
  predicate Announces(streams: seq<(Byte, nat)>, arg: MuxArg) {
    && |streams| == 2 && streams[0].1 == 0x100 && streams[1].1 == 0x101
    && (if arg.video == H264 then streams[0].0 == 0x1b else streams[0].0 == 0x24)
    && (if arg.audio == Aac then streams[1].0 == 0x0f else streams[1].0 == 0x06)
  }

  lemma TypesOf(arg: MuxArg)
    requires arg.audio != NoAudio && arg.video != NoVideo
    ensures var p := PmtArgOf(arg);
            p.video != 0 && p.audio != 0 && Announces([(p.video, VIDEO_PID), (p.audio, AUDIO_PID)], arg)
  {}

  /**
   The descriptor of a G.711 stream: tag 15 with the law as 'a' or 'u' and the sample rate, at the end of the section.
   */
  lemma LawIsAnnounced(arg: MuxArg, count: nat)
    requires count < 16 && arg.video != NoVideo && (arg.audio == Pcma || arg.audio == Pcmu)
    ensures var table := ParseSection(PmtPacket(PmtArgOf(arg), count)[4..]);
            && table.Some? && |table.value.content| >= 6
            && var d := table.value.content[|table.value.content| - 6..];
            && d[0] == 15 && d[1] == 4 && d[2] == (if arg.audio == Pcma then Text("a")[0] else Text("u")[0])
            && d[3] as int * 256 + d[4] == arg.sampleRate % 65536 && d[5] == 0
  {
    hide ParseSection, Section;
    var p := PmtArgOf(arg);
    PmtBodyFacts(p);
    SectionParses(PMT_PID, count, PmtBody(p));
    DescriptorIs(arg);
  }

  lemma DescriptorIs(arg: MuxArg)
    requires arg.video != NoVideo && (arg.audio == Pcma || arg.audio == Pcmu)
    ensures var b := PmtBody(PmtArgOf(arg));
            && |b| >= 9
            && var d := b[3..][|b[3..]| - 6..];
            && d[0] == 15 && d[1] == 4 && d[2] == (if arg.audio == Pcma then Text("a")[0] else Text("u")[0])
            && d[3] as int * 256 + d[4] == arg.sampleRate % 65536 && d[5] == 0
  {
    hide AudioEntry, VideoEntry;
    var p := PmtArgOf(arg);
    EntryEnds(arg);
    var b, e := PmtBody(p), AudioEntry(p);
    assert b[|b| - 11..] == e && b[3..][|b[3..]| - 6..] == b[|b| - 11..][5..];
  }

  lemma EntryEnds(arg: MuxArg)
    requires arg.video != NoVideo && (arg.audio == Pcma || arg.audio == Pcmu)
    ensures var e := AudioEntry(PmtArgOf(arg));
            && |e| == 11
            && var d := e[5..];
            && d[0] == 15 && d[1] == 4 && d[2] == (if arg.audio == Pcma then Text("a")[0] else Text("u")[0])
            && d[3] as int * 256 + d[4] == arg.sampleRate % 65536 && d[5] == 0
  {
    var r, p := arg.sampleRate, PmtArgOf(arg);
    HighAndLow(r);
    assert AudioEntry(p)[5..] == [15, 4, p.g711, r / 256 % 256, r % 256, 0];
    assert Text("a") == [97] && Text("u") == [117];
  }

  lemma HighAndLow(r: int)
    ensures r / 256 % 256 * 256 + r % 256 == r % 65536
  {}

  lemma PatMaps()
    ensures MapPid([0x00, 0x01, 0xC1, 0, 0, 0, 0x01, 0xF0, 0x00]) == Some(PMT_PID)
  {}

  lemma FirstStored(arg: MuxArg, room: Room, evs: seq<Event>)
    requires evs != [] && room.waits == 0 && room.cap >= 376
    ensures var stored := Run(arg, room, evs).stored;
            |stored| >= 376 && stored[..188] == PatPacket(0) && stored[188..376] == PmtPacket(PmtArgOf(arg), 0)
  {
    hide Run, PatPacket, PmtPacket, PmtArgOf, Flatten;
    var s := Run(arg, room, evs);
    RunKeepsPrefix(arg, room, evs);
    FirstEmitted(arg, room, evs);
    var n := |s.stored| / 188;
    TwoStored(arg, room, evs);
    assert s.emitted[..n] == [s.emitted[0]] + [s.emitted[1]] + s.emitted[2..n];
    FlattenAppend([s.emitted[0]] + [s.emitted[1]], s.emitted[2..n]);
    FlattenAppend([s.emitted[0]], [s.emitted[1]]);
    FlattenSingle(s.emitted[0]);
    FlattenSingle(s.emitted[1]);
  }

  lemma TwoStored(arg: MuxArg, room: Room, evs: seq<Event>)
    requires evs != [] && room.waits == 0 && room.cap >= 376
    ensures |Run(arg, room, evs).stored| >= 376
  {
    hide Run, PatPacket, PmtPacket, PmtArgOf, Flatten;
    RunKeepsPrefix(arg, room, evs);
    FirstEmitted(arg, room, evs);
    TablesOnce(arg, room, evs);
  }

  lemma {:induction false} FirstEmitted(arg: MuxArg, room: Room, evs: seq<Event>)
    requires evs != [] && room.waits == 0
    ensures var e := Run(arg, room, evs).emitted;
            |e| >= 2 && e[0] == PatPacket(0) && e[1] == PmtPacket(PmtArgOf(arg), 0)
    decreases |evs|
  {
    hide Run, PatPacket, PmtPacket, PmtArgOf, LastPackets, LastRefused, Before;
    BeforeFacts(arg, room, evs);
    RunEmits(arg, room, evs);
    if |evs| > 1 {
      FirstEmitted(arg, room, evs[..|evs| - 1]);
    }
  }

  /**
   Tables and units agree: on the audio PID the stream id is that of an audio stream exactly under type 0x0f and of a
   private stream exactly under 0x06; the delimiters on the video PID are those of the type announced.
   */
  lemma StreamsAreAnnounced(arg: MuxArg, streams: seq<(Byte, nat)>, u: PesUnit, ev: Event)
    requires arg.audio != NoAudio && arg.video != NoVideo && Announces(streams, arg) && IsUnitOf(u, ev, arg)
    ensures ev.Audio? ==>
              && (0xC0 <= u.streamId <= 0xDF <==> streams[1].0 == 0x0f)
              && (u.streamId == 0xBD <==> streams[1].0 == 0x06)
    ensures ev.Video? ==>
              && u.streamId == 0xE0 && |u.data| >= 6 && u.data[..4] == [0, 0, 0, 1]
              && (streams[0].0 == 0x1b ==> u.data[4] % 32 == 9 && u.data[6..] == ev.data)
              && (streams[0].0 == 0x24 ==> |u.data| >= 7 && u.data[4] / 2 % 64 == 35 && u.data[7..] == ev.data)
  {}

  // ---- the clock

  /** The first video frame of the run, whatever became of the others, was sent. */
  ghost predicate FirstVideoSent(arg: MuxArg, room: Room, evs: seq<Event>) {
    exists j ::
      && 0 <= j < |evs| && evs[j].Video? && evs[j].data != []
      && (forall i :: 0 <= i < j ==> !evs[i].Video?) && MuxResult(arg, Run(arg, room, evs[..j]), evs[j]) == 0
  }

  lemma {:induction false} PcrFrame(arg: MuxArg, room: Room, evs: seq<Event>)
    ensures var frames := StreamFrames(arg, room, evs, VIDEO_PID);
            FirstVideoSent(arg, room, evs) <==> frames != [] && frames[0].withPcr
    decreases |evs|
  {
    hide Run, LastFrame, StreamFrames, WriteTables;
    if evs == [] {
      NoFrames(arg, room);
    } else {
      var prev, ev := evs[..|evs| - 1], evs[|evs| - 1];
      PcrFrame(arg, room, prev);
      PcrOnce(arg, room, prev);
      PcrStep(arg, room, evs);
      StreamFramesStep(arg, room, evs, VIDEO_PID);
      assert forall j :: 0 <= j < |prev| ==> prev[j] == evs[j] && prev[..j] == evs[..j];
      if FirstVideoSent(arg, room, prev) {
        var j :| && 0 <= j < |prev| && prev[j].Video? && prev[j].data != []
                 && (forall i :: 0 <= i < j ==> !prev[i].Video?)
                 && MuxResult(arg, Run(arg, room, prev[..j]), prev[j]) == 0;
        assert evs[j].Video?;
      } else if FirstVideoSent(arg, room, evs) {
        var j :| && 0 <= j < |evs| && evs[j].Video? && evs[j].data != []
                 && (forall i :: 0 <= i < j ==> !evs[i].Video?)
                 && MuxResult(arg, Run(arg, room, evs[..j]), evs[j]) == 0;
        assert j == |prev|;
        assert forall i :: 0 <= i < |prev| ==> !prev[i].Video?;
      }
    }
  }

  /** Only the first packet of a stream can have a PCR, and has it when its frame does. */
  lemma {:induction false} StreamPcr(frames: seq<Frame>, pid: nat, start: nat)
    requires pid < 0x2000 && forall i :: 0 <= i < |frames| ==> frames[i].es != []
    requires forall i :: 1 <= i < |frames| ==> !frames[i].withPcr
    ensures var ps := ParseAll(StreamPackets(frames, pid, start));
            && ps.Some? && |ps.value| == |StreamPackets(frames, pid, start)|
            && (forall i :: 1 <= i < |ps.value| ==> ps.value[i].pcr.None?)
            && (frames != [] ==>
                  && |ps.value| > 0
                  && ps.value[0].pcr == if frames[0].withPcr then Some(frames[0].pts % CLOCK) else None)
    decreases |frames|
  {
    hide Packets, ParseAll, Payload, PesHeader;
    if frames == [] {
      EmptyStream(pid, start);
    } else {
      var init, f := frames[..|frames| - 1], frames[|frames| - 1];
      StreamPcr(init, pid, start);
      var before := StreamPackets(init, pid, start);
      var own := Packets(f, 0, pid, (start + |before|) % 16);
      FramePcr(f, pid, (start + |before|) % 16);
      ParseAllAppend(before, own);
    }
  }

  /** The clock of a frame is in its first packet alone. */
  lemma FramePcr(f: Frame, pid: nat, start: nat)
    requires pid < 0x2000 && f.es != [] && start < 16
    ensures var own := Packets(f, 0, pid, start);
            var ps := ParseAll(own);
            && ps.Some? && |ps.value| == |own| > 0
            && (forall i :: 1 <= i < |ps.value| ==> ps.value[i].pcr.None?)
            && ps.value[0].pcr == if f.withPcr then Some(f.pts % CLOCK) else None
  {
    hide Packets, ParseAll, Payload, PesHeader;
    FrameParses(f, pid, start);
    ParseAllLength(Packets(f, 0, pid, start));
  }

  /**
   The clock of a stored slice: of its packets only the first on the video PID carries a PCR, and it does exactly when
   the first video frame pushed was sent; it is the time of that frame.
   */
  lemma PcrExactly(arg: MuxArg, room: Room, evs: seq<Event>, video: bool, i: nat)
    requires i < |Only(PidFor(video), Chunks(Run(arg, room, evs).stored))|
    ensures var ps := ParseAll(Only(PidFor(video), Chunks(Run(arg, room, evs).stored)));
            var events := Delivered(arg, room, evs, video);
            && ps.Some? && i < |ps.value| && events != []
            && ps.value[i].pcr ==
               if video && i == 0 && FirstVideoSent(arg, room, evs) then Some(90 * events[0].ms % CLOCK) else None
  {
    hide ParseAll, Run, StreamFrames, StreamPackets, Only, FramesAre, Delivered, FirstVideoSent, UnitOf;
    var pid := PidFor(video);
    var s, frames := Run(arg, room, evs), StreamFrames(arg, room, evs, pid);
    StoredIsFront(arg, room, evs, pid);
    FramesAreDelivered(arg, room, evs, video);
    PcrOnce(arg, room, evs);
    PcrFrame(arg, room, evs);
    FramesNotEmpty(arg, room, evs, pid);
    var start := Missed(arg, room, evs, pid);
    StreamPcr(frames, pid, start);
    ParseAllTake(StreamPackets(frames, pid, start), |Only(pid, Chunks(s.stored))|);
    NoneStreamed(pid, start);
    FirstTime(frames, Delivered(arg, room, evs, video), arg);
  }

  lemma NoneStreamed(pid: nat, start: nat)
    requires pid < 0x2000
    ensures StreamPackets([], pid, start) == []
  {}

  lemma FirstTime(frames: seq<Frame>, events: seq<Event>, arg: MuxArg)
    requires FramesAre(frames, events, arg)
    ensures |frames| == |events| && (frames != [] ==> frames[0].pts % CLOCK == 90 * events[0].ms % CLOCK)
  {
    if frames != [] {
      assert IsUnitOf(UnitOf(frames[0]), events[0], arg);
    }
  }

  lemma {:induction false} FramesNotEmpty(arg: MuxArg, room: Room, evs: seq<Event>, pid: nat)
    ensures forall f <- StreamFrames(arg, room, evs, pid) :: f.es != []
    decreases |evs|
  {
    hide LastFrame, Before;
    if evs != [] {
      FramesNotEmpty(arg, room, evs[..|evs| - 1], pid);
      LastFrameData(arg, room, evs);
    }
  }

  /** The packets of a PID in the stored bytes are the first of those sent on it. */
  lemma StoredIsFront(arg: MuxArg, room: Room, evs: seq<Event>, pid: nat)
    requires pid in {AUDIO_PID, VIDEO_PID}
    ensures var own := Only(pid, Chunks(Run(arg, room, evs).stored));
            var all := StreamPackets(StreamFrames(arg, room, evs, pid), pid, Missed(arg, room, evs, pid));
            |own| <= |all| && own == all[..|own|]
  {
    hide Run, StreamFrames, StreamPackets, Only;
    var s := Run(arg, room, evs);
    RunKeepsPrefix(arg, room, evs);
    var n := |s.stored| / 188;
    ChunksFlatten(s.emitted[..n]);
    OnlyAppend(pid, s.emitted[..n], s.emitted[n..]);
    assert s.emitted == s.emitted[..n] + s.emitted[n..];
    StreamIsSeparate(arg, room, evs, pid);
  }
}
