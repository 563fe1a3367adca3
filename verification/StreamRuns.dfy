/**
 A receiver that selects one PID from the packets of a slice gets back the
 frames of that stream, in order, with unbroken continuity counters, whatever
 the interleaving with the other stream.
 */
module StreamRuns {
  import opened Bytes
  import opened MpegTs
  import opened TsDemux
  import opened Psi
  import opened TsMux
  import opened SliceRuns

  /** The receiver's selection by PID. */
  function PidOf(p: seq<Byte>): nat
    requires |p| == TS_PACKET_LEN
  {
    p[1] as int % 0x20 * 256 + p[2]
  }

  function Only(pid: nat, ps: seq<seq<Byte>>): seq<seq<Byte>>
    decreases |ps|
  {
    if ps == [] then []
    else (if |ps[0]| == TS_PACKET_LEN && PidOf(ps[0]) == pid then [ps[0]] else []) + Only(pid, ps[1..])
  }

  lemma {:induction false} OnlyAppend(pid: nat, a: seq<seq<Byte>>, b: seq<seq<Byte>>)
    ensures Only(pid, a + b) == Only(pid, a) + Only(pid, b)
    decreases |a|
  {
    hide PidOf;
    if a == [] {
      assert a + b == b;
    } else {
      var p := if |a[0]| == TS_PACKET_LEN && PidOf(a[0]) == pid then [a[0]] else [];
      assert (a + b)[1..] == a[1..] + b;
      OnlyAppend(pid, a[1..], b);
      assert p + (Only(pid, a[1..]) + Only(pid, b)) == p + Only(pid, a[1..]) + Only(pid, b);
    }
  }

  lemma PacketPid(f: Frame, pos: nat, pid: nat, count: nat)
    requires pos < |f.es| && pid < 0x2000 && count < 16
    ensures PidOf(Packet(f, pos, pid, count)) == pid
  {
    hide PacketRest, Adaptation;
    var p := Packet(f, pos, pid, count);
    HeaderParses(pos == 0, count, pid, Adaptation(f, pos), p);
  }

  lemma {:induction false} OnlyPackets(q: nat, f: Frame, pos: nat, pid: nat, count: nat)
    requires pos <= |f.es| && pid < 0x2000 && count < 16
    ensures Only(q, Packets(f, pos, pid, count)) == if q == pid then Packets(f, pos, pid, count) else []
    decreases |f.es| - pos
  {
    hide Packet, ReadLen, PidOf;
    if pos < |f.es| {
      PacketPid(f, pos, pid, count);
      OnlyPackets(q, f, pos + ReadLen(f, pos), pid, (count + 1) % 16);
      var ps := Packets(f, pos, pid, count);
      assert ps[1..] == Packets(f, pos + ReadLen(f, pos), pid, (count + 1) % 16);
    }
  }

  lemma TablePids(arg: MuxArg)
    ensures PidOf(PatPacket(0)) == PAT_PID && PidOf(PmtPacket(PmtArgOf(arg), 0)) == PMT_PID
  {
    hide PmtArgOf, PidOf, PmtBody, PmtReported, Section, TablePacket;
    TablePid(PAT_PID, 0, Section(PAT_BODY), 21);
    var pmt := PmtArgOf(arg);
    assert PmtReported(pmt) >= 16 by { ReportedAtLeast(pmt); }
    TablePid(PMT_PID, 0, Section(PmtBody(pmt)), PmtReported(pmt));
  }

  lemma ReportedAtLeast(arg: PmtArg)
    ensures PmtReported(arg) >= 16
  {}

  lemma OnlyTables(arg: MuxArg, pid: nat)
    requires pid in {AUDIO_PID, VIDEO_PID}
    ensures Only(pid, Tables(arg)) == []
  {
    hide PatPacket, PmtPacket, PmtArgOf, PidOf;
    TablePids(arg);
    var t := Tables(arg);
    var u := t[1..];
    assert u == [PmtPacket(PmtArgOf(arg), 0)];
    assert Only(pid, u[1..]) == [];
    assert Only(pid, u) == [];
  }

  lemma TablePid(pid: nat, count: nat, section: seq<Byte>, n: nat)
    requires pid < 0x2000 && count < 16 && 4 <= n <= 5 + |section| <= 188
    ensures PidOf(TablePacket(pid, count, section, n)) == pid
  {
    var p := TablePacket(pid, count, section, n);
    assert p[..4] == TsHeader(true, count, pid, JUST_PAYLOAD);
    HeaderParses(true, count, pid, JUST_PAYLOAD, p);
  }

  /** Tables leave the streams alone, lost or not. */
  lemma OnlyTablePart(arg: MuxArg, pid: nat, k: nat)
    requires pid in {AUDIO_PID, VIDEO_PID} && k <= 2
    ensures Only(pid, Tables(arg)[..k]) == [] && Only(pid, Tables(arg)[k..]) == []
  {
    hide Tables, Only;
    OnlyTables(arg, pid);
    TwoTables(arg);
    OnlyAppend(pid, Tables(arg)[..k], Tables(arg)[k..]);
    assert Tables(arg) == Tables(arg)[..k] + Tables(arg)[k..];
  }

  lemma TwoTables(arg: MuxArg)
    ensures |Tables(arg)| == 2
  {}

  /** The non-empty frames of one stream that found a buffer, as PES, in push order. */
  function StreamFrames(arg: MuxArg, room: Room, evs: seq<Event>, pid: nat): seq<Frame>
    decreases |evs|
  {
    if evs == [] then []
    else
      var ev := evs[|evs| - 1];
      StreamFrames(arg, room, evs[..|evs| - 1], pid)
      + (if ev.Pid() == pid && ev.data != [] && Before(arg, room, evs).waits == 0
         then [LastFrame(arg, room, evs)] else [])
  }

  /** The packets of consecutive frames on a PID of their own, numbered from start on. */
  function StreamPackets(frames: seq<Frame>, pid: nat, start: nat): seq<seq<Byte>>
    requires pid < 0x2000
    decreases |frames|
  {
    if frames == [] then []
    else
      var before := StreamPackets(frames[..|frames| - 1], pid, start);
      before + Packets(frames[|frames| - 1], 0, pid, (start + |before|) % 16)
  }

  /** How many packets of a PID were handed over while there was no buffer. */
  function Missed(arg: MuxArg, room: Room, evs: seq<Event>, pid: nat): nat {
    |Only(pid, Run(arg, room, evs).refused)|
  }

  /** One push adds to the packets of its own PID only. */
  lemma StreamStep(arg: MuxArg, room: Room, evs: seq<Event>, pid: nat)
    requires evs != [] && pid in {AUDIO_PID, VIDEO_PID}
    ensures var ev, s, t := evs[|evs| - 1], Run(arg, room, evs[..|evs| - 1]), Run(arg, room, evs);
            var own, out := if ev.Pid() == pid then LastPackets(arg, room, evs) else [],
                            if ev.Pid() == pid then LastRefused(arg, room, evs) else [];
            && Only(pid, t.emitted) == Only(pid, s.emitted) + own
            && Only(pid, t.refused) == Only(pid, s.refused) + out
            && Counter(t, pid) == (Counter(s, pid) + |out| + |own|) % 16
            && (ev.Pid() == pid ==> Counter(Before(arg, room, evs), pid) == Counter(s, pid))
            && t.waits == Before(arg, room, evs).waits - |LastRefused(arg, room, evs)|
            && (s.waits == 0 ==> Before(arg, room, evs).waits == 0)
  {
    hide Packet, Packets, Run, FrameOf, Before, LastFrame, Tables, Only, LastPackets, LastRefused;
    var ev, s, s1 := evs[|evs| - 1], Run(arg, room, evs[..|evs| - 1]), Before(arg, room, evs);
    BeforeFacts(arg, room, evs);
    OnlyTablePart(arg, pid, TablesLost(room));
    OnlyEmpty(pid);
    FirstRun(arg, room, evs, pid);
    assert Only(pid, s1.emitted) == Only(pid, s.emitted) && Counter(s1, pid) == Counter(s, pid);
    assert Only(pid, s1.refused) == Only(pid, s.refused);
    RunEmits(arg, room, evs);
    var ps, out := LastPackets(arg, room, evs), LastRefused(arg, room, evs);
    OnlyAppend(pid, s1.emitted, ps);
    OnlyAppend(pid, s1.refused, out);
    OnlyLast(arg, room, evs, pid);
  }

  lemma OnlyLast(arg: MuxArg, room: Room, evs: seq<Event>, pid: nat)
    requires evs != []
    ensures var own := evs[|evs| - 1].Pid() == pid;
            && Only(pid, LastPackets(arg, room, evs)) == (if own then LastPackets(arg, room, evs) else [])
            && Only(pid, LastRefused(arg, room, evs)) == if own then LastRefused(arg, room, evs) else []
  {
    hide Packet, Packets, Run, Before, LastFrame, PidOf;
    var q, s, f := evs[|evs| - 1].Pid(), Before(arg, room, evs), LastFrame(arg, room, evs);
    OnlyEmpty(pid);
    if NoRoom(s, f) {
      PacketPid(f, 0, q, Counter(s, q));
      OnlyOne(pid, Packet(f, 0, q, Counter(s, q)));
    } else {
      OnlyPackets(pid, f, 0, q, Counter(s, q));
    }
  }

  lemma OnlyOne(pid: nat, p: seq<Byte>)
    requires |p| == TS_PACKET_LEN
    ensures Only(pid, [p]) == if PidOf(p) == pid then [p] else []
  {
    hide PidOf;
    assert [p][1..] == [];
  }

  lemma OnlyEmpty(pid: nat)
    ensures Only(pid, []) == []
  {}

  /** Interleaving is invisible: the packets of a PID are those of its own frames alone. */
  lemma {:induction false} StreamIsSeparate(arg: MuxArg, room: Room, evs: seq<Event>, pid: nat)
    requires pid in {AUDIO_PID, VIDEO_PID}
    ensures Only(pid, Run(arg, room, evs).emitted)
         == StreamPackets(StreamFrames(arg, room, evs, pid), pid, Missed(arg, room, evs, pid))
    ensures Counter(Run(arg, room, evs), pid)
         == (Missed(arg, room, evs, pid) + |Only(pid, Run(arg, room, evs).emitted)|) % 16
    ensures Run(arg, room, evs).waits > 0 ==> StreamFrames(arg, room, evs, pid) == []
    decreases |evs|
  {
    hide Packet, Packets, Run, FrameOf, Before, LastFrame, Only, Counter, StreamFrames, StreamPackets;
    hide LastPackets, LastRefused;
    if evs == [] {
      NothingStreamed(arg, room, pid, 0);
      EmptyRun(arg, room);
      OnlyEmpty(pid);
      EmptyCounter(room, pid);
    } else {
      var prev := evs[..|evs| - 1];
      var ev, s := evs[|evs| - 1], Run(arg, room, prev);
      StreamIsSeparate(arg, room, prev, pid);
      StreamStep(arg, room, evs, pid);
      LastFrameData(arg, room, evs);
      StreamFramesStep(arg, room, evs, pid);
      LastSent(arg, room, evs);
      var frames, f := StreamFrames(arg, room, prev, pid), LastFrame(arg, room, evs);
      var m, n := Missed(arg, room, prev, pid), |Only(pid, s.emitted)|;
      if ev.Pid() == pid {
        var own, out := LastPackets(arg, room, evs), LastRefused(arg, room, evs);
        CounterAdds(m + n, |out| + |own|);
        if ev.data != [] && Before(arg, room, evs).waits == 0 {
          StreamPacketsSnoc(frames, f, pid, m);
        } else if ev.data != [] {
          NothingStreamed(arg, room, pid, m);
          NothingStreamed(arg, room, pid, m + 1);
        }
      } else {
        CounterAdds(m + n, 0);
      }
    }
  }

  lemma LastSent(arg: MuxArg, room: Room, evs: seq<Event>)
    requires evs != []
    ensures var ev, s1, f := evs[|evs| - 1], Before(arg, room, evs), LastFrame(arg, room, evs);
            && (ev.data == [] ==> LastPackets(arg, room, evs) == [] && LastRefused(arg, room, evs) == [])
            && (ev.data != [] && s1.waits == 0 ==>
                  && LastPackets(arg, room, evs) == Packets(f, 0, ev.Pid(), Counter(s1, ev.Pid()))
                  && LastRefused(arg, room, evs) == [])
            && (ev.data != [] && s1.waits > 0 ==>
                LastPackets(arg, room, evs) == [] && |LastRefused(arg, room, evs)| == 1)
  {
    hide Packet, Before, LastFrame;
    LastFrameData(arg, room, evs);
  }

  lemma NothingStreamed(arg: MuxArg, room: Room, pid: nat, start: nat)
    requires pid < 0x2000
    ensures StreamFrames(arg, room, [], pid) == [] && StreamPackets([], pid, start) == []
  {}

  lemma StreamPacketsSnoc(frames: seq<Frame>, f: Frame, pid: nat, start: nat)
    requires pid < 0x2000
    ensures var before := StreamPackets(frames, pid, start);
            StreamPackets(frames + [f], pid, start) == before + Packets(f, 0, pid, (start + |before|) % 16)
  {
    hide Packets;
    assert (frames + [f])[..|frames|] == frames;
  }

  lemma EmptyCounter(room: Room, pid: nat)
    requires pid in PIDS
    ensures Counter(EmptySlice(room), pid) == 0
  {}

  lemma CounterAdds(a: nat, b: nat)
    ensures (a % 16 + b) % 16 == (a + b) % 16
  {}

  lemma FirstRun(arg: MuxArg, room: Room, evs: seq<Event>, pid: nat)
    requires evs != [] && pid in {AUDIO_PID, VIDEO_PID}
    ensures |evs| == 1 ==> Run(arg, room, evs[..|evs| - 1]) == EmptySlice(room)
  {
    EmptyRun(arg, room);
    assert |evs| == 1 ==> evs[..|evs| - 1] == [];
  }

  lemma StreamFramesStep(arg: MuxArg, room: Room, evs: seq<Event>, pid: nat)
    requires evs != []
    ensures var ev, frames := evs[|evs| - 1], StreamFrames(arg, room, evs[..|evs| - 1], pid);
            StreamFrames(arg, room, evs, pid) ==
            if ev.Pid() == pid && ev.data != [] && Before(arg, room, evs).waits == 0
            then frames + [LastFrame(arg, room, evs)]
            else frames
  {}

  // ---- the receiver's view of one stream

  /** The payloads between unit starts; none if the stream does not begin with a start. */
  function Units(ps: seq<TsPacket>): Option<seq<seq<Byte>>>
    decreases |ps|
  {
    if ps == [] then Some([])
    else
      var last := ps[|ps| - 1];
      match Units(ps[..|ps| - 1])
      case None => None
      case Some(us) =>
        if last.start then Some(us + [last.payload])
        else if us == [] then None
        else Some(us[..|us| - 1] + [us[|us| - 1] + last.payload])
  }

  lemma {:induction false} PayloadAppend(a: seq<TsPacket>, p: TsPacket)
    ensures Payload(a + [p]) == Payload(a) + p.payload
    decreases |a|
  {
    if a == [] {
      assert [p][1..] == [];
    } else {
      assert (a + [p])[1..] == a[1..] + [p];
      PayloadAppend(a[1..], p);
    }
  }

  /** A run of packets of one PES is one more unit. */
  lemma {:induction false} UnitAppends(a: seq<TsPacket>, u: seq<TsPacket>)
    requires Units(a).Some? && u != [] && u[0].start && forall i :: 1 <= i < |u| ==> !u[i].start
    ensures Units(a + u) == Some(Units(a).value + [Payload(u)])
    decreases |u|
  {
    var init, last := u[..|u| - 1], u[|u| - 1];
    assert (a + u)[..|a + u| - 1] == a + init;
    assert u == init + [last];
    PayloadAppend(init, last);
    if init == [] {
      assert a + init == a;
      assert Payload(init) + last.payload == last.payload;
    } else {
      UnitAppends(a, init);
      var us := Units(a).value;
      assert (us + [Payload(init)])[..|us|] == us;
    }
  }

  lemma {:induction false} ParseAllAppend(a: seq<seq<Byte>>, b: seq<seq<Byte>>)
    requires ParseAll(a).Some? && ParseAll(b).Some?
    ensures ParseAll(a + b) == Some(ParseAll(a).value + ParseAll(b).value)
    decreases |a|
  {
    hide ParsePacket;
    if a == [] {
      assert a + b == b;
      assert ParseAll(a).value + ParseAll(b).value == ParseAll(b).value;
    } else {
      assert (a + b)[1..] == a[1..] + b;
      ParseAllAppend(a[1..], b);
      var p := [ParsePacket(a[0]).value];
      assert p + (ParseAll(a[1..]).value + ParseAll(b).value) == (p + ParseAll(a[1..]).value) + ParseAll(b).value;
    }
  }

  lemma {:induction false} ParseAllLength(a: seq<seq<Byte>>)
    requires ParseAll(a).Some?
    ensures |ParseAll(a).value| == |a|
    decreases |a|
  {
    hide ParsePacket;
    if a != [] {
      ParseAllLength(a[1..]);
    }
  }

  ghost predicate Continuous(ps: seq<TsPacket>, pid: nat, start: nat) {
    forall i :: 0 <= i < |ps| ==> ps[i].pid == pid && ps[i].counter == (start + i) % 16
  }

  lemma ContinuousAppend(a: seq<TsPacket>, u: seq<TsPacket>, pid: nat, start: nat)
    requires Continuous(a, pid, start) && OneUnit(u, pid, (start + |a|) % 16)
    ensures Continuous(a + u, pid, start)
  {
    forall i | 0 <= i < |a + u|
      ensures (a + u)[i].pid == pid && (a + u)[i].counter == (start + i) % 16
    {
      if i >= |a| {
        CounterAdds(start + |a|, i - |a|);
      }
    }
  }

  /** What the receiver should see of a frame. */
  function UnitOf(f: Frame): PesUnit {
    PesUnit(f.streamId, f.pts % 0x2_0000_0000, Aud(f.format) + f.es)
  }

  /**
   Demultiplexing a stream of frames: every packet parses, continuity counters
   run in a circle of 16 without a gap, and the units are the frames in order.
   */
  lemma {:induction false} StreamRoundTrip(frames: seq<Frame>, pid: nat, start: nat)
    requires pid < 0x2000
    requires forall i :: 0 <= i < |frames| ==> frames[i].es != [] && frames[i].Sendable() && FillsPcrPacket(frames[i])
    ensures ParseAll(StreamPackets(frames, pid, start)).Some?
    ensures var ps := ParseAll(StreamPackets(frames, pid, start)).value;
            && |ps| == |StreamPackets(frames, pid, start)|
            && Continuous(ps, pid, start)
            && Units(ps).Some? && |Units(ps).value| == |frames|
            && forall i :: 0 <= i < |frames| ==> ParsePes(Units(ps).value[i]) == Some(UnitOf(frames[i]))
    decreases |frames|
  {
    hide Packets, ParsePes, ParseAll, Units, OneUnit, Continuous, UnitOf, FillsPcrPacket, Frame.Sendable, Payload;
    if frames == [] {
      EmptyStream(pid, start);
    } else {
      var init, f := frames[..|frames| - 1], frames[|frames| - 1];
      StreamRoundTrip(init, pid, start);
      var before := StreamPackets(init, pid, start);
      var own := Packets(f, 0, pid, (start + |before|) % 16);
      var a := ParseAll(before).value;
      FrameUnit(f, pid, (start + |before|) % 16);
      var u := ParseAll(own).value;
      ParseAllAppend(before, own);
      ParseAllLength(own);
      UnitAppends(a, u);
      ContinuousAppend(a, u, pid, start);
      forall i | 0 <= i < |frames|
        ensures ParsePes(Units(a + u).value[i]) == Some(UnitOf(frames[i]))
      {
        if i < |init| {
          assert frames[i] == init[i];
        }
      }
    }
  }

  lemma EmptyStream(pid: nat, start: nat)
    ensures ParseAll([]) == Some([]) && Units([]) == Some([]) && Continuous([], pid, start)
  {}

  lemma FrameUnit(f: Frame, pid: nat, count: nat)
    requires f.es != [] && f.Sendable() && FillsPcrPacket(f) && pid < 0x2000 && count < 16
    ensures ParseAll(Packets(f, 0, pid, count)).Some?
    ensures var u := ParseAll(Packets(f, 0, pid, count)).value;
            && OneUnit(u, pid, count)
            && u != [] && u[0].start && (forall i :: 1 <= i < |u| ==> !u[i].start)
            && ParsePes(Payload(u)) == Some(UnitOf(f))
  {
    hide Packets, ParsePes, ParseAll, Payload, FillsPcrPacket;
    FrameRoundTrip(f, pid, count);
  }

  /** Both together: what a receiver gets from any run whose first video frame fills its packet. */
  lemma RunRoundTrip(arg: MuxArg, room: Room, evs: seq<Event>, pid: nat)
    requires pid in {AUDIO_PID, VIDEO_PID}
    requires forall i :: 0 <= i < |evs| ==> evs[i].Sendable()
    requires var frames := StreamFrames(arg, room, evs, pid); frames != [] ==> FillsPcrPacket(frames[0])
    ensures var frames := StreamFrames(arg, room, evs, pid);
            var start := Missed(arg, room, evs, pid);
            var ps := ParseAll(Only(pid, Run(arg, room, evs).emitted));
            && ps.Some? && Continuous(ps.value, pid, start)
            && Units(ps.value).Some? && |Units(ps.value).value| == |frames|
            && forall i :: 0 <= i < |frames| ==> ParsePes(Units(ps.value).value[i]) == Some(UnitOf(frames[i]))
  {
    hide Packets, ParsePes, ParseAll, Units, Continuous, UnitOf, Run, StreamFrames, PesHeader;
    PcrOnce(arg, room, evs);
    StreamIsSeparate(arg, room, evs, pid);
    FramesSendable(arg, room, evs, pid);
    StreamRoundTrip(StreamFrames(arg, room, evs, pid), pid, Missed(arg, room, evs, pid));
  }

  // ---- the receiver of the stored bytes

  /** The whole packets of a byte stream. */
  function Chunks(s: seq<Byte>): (r: seq<seq<Byte>>)
    ensures |r| == |s| / TS_PACKET_LEN
    decreases |s|
  {
    if |s| < TS_PACKET_LEN then [] else [s[..TS_PACKET_LEN]] + Chunks(s[TS_PACKET_LEN..])
  }

  lemma {:induction false} ChunksFlatten(ps: seq<seq<Byte>>)
    requires forall i :: 0 <= i < |ps| ==> |ps[i]| == TS_PACKET_LEN
    ensures Chunks(Flatten(ps)) == ps
    decreases |ps|
  {
    if ps != [] {
      ChunksFlatten(ps[1..]);
      assert Flatten(ps)[..TS_PACKET_LEN] == ps[0] && Flatten(ps)[TS_PACKET_LEN..] == Flatten(ps[1..]);
    }
  }

  lemma {:induction false} ParseAllTake(a: seq<seq<Byte>>, n: nat)
    requires ParseAll(a).Some? && n <= |a|
    ensures ParseAll(a[..n]).Some? && |ParseAll(a).value| == |a| && ParseAll(a[..n]).value == ParseAll(a).value[..n]
    decreases |a|
  {
    hide ParsePacket;
    ParseAllLength(a);
    if n > 0 {
      assert a[..n][1..] == a[1..][..n - 1];
      ParseAllTake(a[1..], n - 1);
    }
  }

  /** Frame i of a stream lies within its first n packets. */
  predicate Within(frames: seq<Frame>, pid: nat, start: nat, i: nat, n: nat)
    requires pid < 0x2000 && i < |frames|
  {
    |StreamPackets(frames[..i + 1], pid, start)| <= n
  }

  /** The units are the frames in order: all that lie within the first n packets, and at most a part of one more. */
  ghost predicate Received(us: seq<seq<Byte>>, frames: seq<Frame>, pid: nat, start: nat, n: nat)
    requires pid < 0x2000
  {
    && |us| <= |frames|
    && (|us| > 1 ==> |StreamPackets(frames[..|us| - 1], pid, start)| <= n)
    && (forall i :: 0 <= i < |us| - 1 ==> ParsePes(us[i]) == Some(UnitOf(frames[i])))
    && forall i :: 0 <= i < |frames| && Within(frames, pid, start, i, n) ==>
         i < |us| && ParsePes(us[i]) == Some(UnitOf(frames[i]))
  }

  /**
   The first packets of a stream, cut anywhere, give every frame that lies before the cut, and at most a part of one
   more.
   */
  lemma {:induction false} PrefixRoundTrip(frames: seq<Frame>, pid: nat, start: nat, n: nat)
    requires pid < 0x2000 && n <= |StreamPackets(frames, pid, start)|
    requires forall i :: 0 <= i < |frames| ==> frames[i].es != [] && frames[i].Sendable() && FillsPcrPacket(frames[i])
    ensures var ps := ParseAll(StreamPackets(frames, pid, start)[..n]);
            && ps.Some? && Continuous(ps.value, pid, start)
            && Units(ps.value).Some? && Received(Units(ps.value).value, frames, pid, start, n)
    decreases |frames|
  {
    hide Packets, ParsePes, ParseAll, Units, OneUnit, Continuous, UnitOf, FillsPcrPacket, Frame.Sendable, Payload,
      StreamPackets;
    hide Received;
    if frames == [] {
      EmptyStream(pid, start);
      NoPacketsOf(pid, start);
      NothingReceived(pid, start, n);
    } else {
      var init, f := frames[..|frames| - 1], frames[|frames| - 1];
      var before := StreamPackets(init, pid, start);
      var own := Packets(f, 0, pid, (start + |before|) % 16);
      assert frames == init + [f];
      StreamPacketsSnoc(init, f, pid, start);
      FrameUnit(f, pid, (start + |before|) % 16);
      if n <= |before| {
        PrefixRoundTrip(init, pid, start, n);
        assert (before + own)[..n] == before[..n];
        SomePackets(f, pid, (start + |before|) % 16);
        ReceivedBefore(Units(ParseAll(before[..n]).value).value, init, f, pid, start, n);
      } else {
        CutInFrame(init, f, pid, start, before, own, n - |before|);
        assert (before + own)[..n] == before + own[..n - |before|];
        ReceivedCut(Units(ParseAll((before + own)[..n]).value).value, init, f, pid, start, n);
      }
    }
  }

  /** A frame behind the cut changes nothing. */
  lemma ReceivedBefore(us: seq<seq<Byte>>, init: seq<Frame>, f: Frame, pid: nat, start: nat, n: nat)
    requires pid < 0x2000 && Received(us, init, pid, start, n) && n < |StreamPackets(init + [f], pid, start)|
    ensures Received(us, init + [f], pid, start, n)
  {
    hide StreamPackets, ParsePes, UnitOf;
    var frames := init + [f];
    if |us| > 1 {
      assert frames[..|us| - 1] == init[..|us| - 1];
    }
    assert |us| <= |init|;
    assert frames[..|init| + 1] == frames;
    forall i | 0 <= i < |frames| && Within(frames, pid, start, i, n)
      ensures i < |us| && ParsePes(us[i]) == Some(UnitOf(frames[i]))
    {
      if i < |init| {
        assert frames[..i + 1] == init[..i + 1] && frames[i] == init[i];
      }
    }
  }

  /** A cut in the last frame or at its end. */
  lemma ReceivedCut(us: seq<seq<Byte>>, init: seq<Frame>, f: Frame, pid: nat, start: nat, n: nat)
    requires pid < 0x2000 && |StreamPackets(init, pid, start)| <= n <= |StreamPackets(init + [f], pid, start)|
    requires OneBehind(us, init, f, n == |StreamPackets(init + [f], pid, start)|)
    ensures Received(us, init + [f], pid, start, n)
  {
    hide StreamPackets, ParsePes, UnitOf;
    var frames := init + [f];
    assert frames[..|us| - 1] == init && frames[..|init| + 1] == frames;
    forall i | 0 <= i < |frames| && Within(frames, pid, start, i, n)
      ensures i < |us| && ParsePes(us[i]) == Some(UnitOf(frames[i]))
    {
      if i < |init| {
        assert frames[i] == init[i];
      }
    }
  }

  lemma NothingReceived(pid: nat, start: nat, n: nat)
    requires pid < 0x2000
    ensures Received([], [], pid, start, n)
  {}

  lemma NoPacketsOf(pid: nat, start: nat)
    requires pid < 0x2000
    ensures StreamPackets([], pid, start) == []
  {}

  lemma SomePackets(f: Frame, pid: nat, count: nat)
    requires f.es != [] && pid < 0x2000 && count < 16
    ensures Packets(f, 0, pid, count) != []
  {
    hide Packet, ReadLen;
  }

  /** The units of the frames before f, and one of f, all of it or its front. */
  ghost predicate OneBehind(us: seq<seq<Byte>>, init: seq<Frame>, f: Frame, whole: bool) {
    && |us| == |init| + 1 && (forall i :: 0 <= i < |init| ==> ParsePes(us[i]) == Some(UnitOf(init[i])))
    && (whole ==> ParsePes(us[|init|]) == Some(UnitOf(f)))
  }

  /** The cut lies in the last frame or at its end. */
  lemma CutInFrame(init: seq<Frame>, f: Frame, pid: nat, start: nat, before: seq<seq<Byte>>, own: seq<seq<Byte>>,
                   m: nat)
    requires pid < 0x2000 && before == StreamPackets(init, pid, start)
    requires own == Packets(f, 0, pid, (start + |before|) % 16) && 0 < m <= |own|
    requires forall i :: 0 <= i < |init| ==> init[i].es != [] && init[i].Sendable() && FillsPcrPacket(init[i])
    requires f.es != [] && f.Sendable() && FillsPcrPacket(f)
    ensures var ps := ParseAll(before + own[..m]);
            && ps.Some? && Continuous(ps.value, pid, start)
            && Units(ps.value).Some? && OneBehind(Units(ps.value).value, init, f, m == |own|)
  {
    hide Packets, ParsePes, ParseAll, Units, OneUnit, Continuous, UnitOf, FillsPcrPacket, Frame.Sendable, Payload,
      StreamPackets;
    var c := (start + |before|) % 16;
    StreamRoundTrip(init, pid, start);
    FrameUnit(f, pid, c);
    ParseAllTake(own, m);
    UnitTake(ParseAll(own).value, pid, c, m);
    JoinUnit(before, own[..m], pid, start);
    assert m == |own| ==> own[..m] == own;
  }

  /** The packets of one more PES, or of its front, behind those of a stream. */
  lemma JoinUnit(before: seq<seq<Byte>>, own: seq<seq<Byte>>, pid: nat, start: nat)
    requires ParseAll(before).Some? && Continuous(ParseAll(before).value, pid, start)
    requires Units(ParseAll(before).value).Some?
    requires ParseAll(own).Some? && OneUnit(ParseAll(own).value, pid, (start + |before|) % 16)
    ensures var ps := ParseAll(before + own);
            && ps.Some? && Continuous(ps.value, pid, start)
            && Units(ps.value) == Some(Units(ParseAll(before).value).value + [Payload(ParseAll(own).value)])
  {
    hide ParseAll, Units, Continuous, Payload;
    var a, u := ParseAll(before).value, ParseAll(own).value;
    ParseAllAppend(before, own);
    ParseAllLength(before);
    UnitAppends(a, u);
    ContinuousAppend(a, u, pid, start);
  }

  lemma UnitTake(u: seq<TsPacket>, pid: nat, count: nat, m: nat)
    requires OneUnit(u, pid, count) && 0 < m <= |u|
    ensures OneUnit(u[..m], pid, count)
  {}

  /**
   What a receiver gets from the bytes of a slice as they are stored and uploaded, also when the buffer was full before
   the end of the run: every frame of the stream whose packets are all in it, in order.
   */
  lemma StoredRoundTrip(arg: MuxArg, room: Room, evs: seq<Event>, pid: nat)
    requires pid in {AUDIO_PID, VIDEO_PID}
    requires forall i :: 0 <= i < |evs| ==> evs[i].Sendable()
    requires var frames := StreamFrames(arg, room, evs, pid); frames != [] ==> FillsPcrPacket(frames[0])
    ensures var frames, s := StreamFrames(arg, room, evs, pid), Run(arg, room, evs);
            var own, start := Only(pid, Chunks(s.stored)), Missed(arg, room, evs, pid);
            var ps := ParseAll(own);
            && ps.Some? && Continuous(ps.value, pid, start)
            && Units(ps.value).Some? && Received(Units(ps.value).value, frames, pid, start, |own|)
            && (|s.stored| == 188 * |s.emitted| ==> Chunks(s.stored) == s.emitted)
  {
    hide Packets, ParsePes, ParseAll, Units, Continuous, UnitOf, Run, StreamFrames, StreamPackets, PesHeader, Only;
    hide FillsPcrPacket, Frame.Sendable, Event.Sendable;
    var s, frames, start := Run(arg, room, evs), StreamFrames(arg, room, evs, pid), Missed(arg, room, evs, pid);
    RunKeepsPrefix(arg, room, evs);
    var n := |s.stored| / 188;
    ChunksFlatten(s.emitted[..n]);
    OnlyAppend(pid, s.emitted[..n], s.emitted[n..]);
    assert s.emitted == s.emitted[..n] + s.emitted[n..];
    StreamIsSeparate(arg, room, evs, pid);
    var own := Only(pid, s.emitted[..n]);
    assert StreamPackets(frames, pid, start)[..|own|] == own;
    AllFill(arg, room, evs, pid);
    FramesSendable(arg, room, evs, pid);
    PrefixRoundTrip(frames, pid, start, |own|);
    assert |s.stored| == 188 * |s.emitted| ==> s.emitted[..n] == s.emitted;
  }

  /** Only a frame with a PCR has to fill its first packet, and that is the first one. */
  lemma AllFill(arg: MuxArg, room: Room, evs: seq<Event>, pid: nat)
    requires pid in {AUDIO_PID, VIDEO_PID}
    requires var frames := StreamFrames(arg, room, evs, pid); frames != [] ==> FillsPcrPacket(frames[0])
    ensures var frames := StreamFrames(arg, room, evs, pid); forall i :: 0 <= i < |frames| ==> FillsPcrPacket(frames[i])
  {
    hide StreamFrames, Run, PesHeader;
    PcrOnce(arg, room, evs);
  }

  lemma {:induction false} FramesSendable(arg: MuxArg, room: Room, evs: seq<Event>, pid: nat)
    requires pid in {AUDIO_PID, VIDEO_PID}
    requires forall i :: 0 <= i < |evs| ==> evs[i].Sendable()
    ensures forall i :: 0 <= i < |StreamFrames(arg, room, evs, pid)| ==>
              StreamFrames(arg, room, evs, pid)[i].es != [] && StreamFrames(arg, room, evs, pid)[i].Sendable()
    decreases |evs|
  {
    hide LastFrame, StreamFrames, Frame.Sendable, Event.Sendable;
    if evs == [] {
      NoFrames(arg, room);
    } else {
      FramesSendable(arg, room, evs[..|evs| - 1], pid);
      StreamFramesStep(arg, room, evs, pid);
      LastSendable(arg, room, evs);
    }
  }

  lemma LastSendable(arg: MuxArg, room: Room, evs: seq<Event>)
    requires evs != [] && evs[|evs| - 1].Sendable()
    ensures LastFrame(arg, room, evs).Sendable() && LastFrame(arg, room, evs).es == evs[|evs| - 1].data
  {
    hide Before;
  }

  /** Only the first video frame of a run carries a PCR. */
  lemma {:induction false} PcrOnce(arg: MuxArg, room: Room, evs: seq<Event>)
    ensures var frames := StreamFrames(arg, room, evs, VIDEO_PID);
            && (Run(arg, room, evs).pcrDone == exists i :: 0 <= i < |evs| && evs[i].Video?)
            && (forall i :: 1 <= i < |frames| ==> !frames[i].withPcr)
            && (forall i :: 0 <= i < |StreamFrames(arg, room, evs, AUDIO_PID)| ==>
                  !StreamFrames(arg, room, evs, AUDIO_PID)[i].withPcr)
            && (frames != [] ==> Run(arg, room, evs).pcrDone)
    decreases |evs|
  {
    hide Run, Before, LastFrame, StreamFrames;
    if evs == [] {
      EmptyRun(arg, room);
      assert StreamFrames(arg, room, [], VIDEO_PID) == [] && StreamFrames(arg, room, [], AUDIO_PID) == [] by {
        NoFrames(arg, room);
      }
    } else {
      var prev := evs[..|evs| - 1];
      PcrOnce(arg, room, prev);
      assert evs == prev + [evs[|evs| - 1]];
      PcrStep(arg, room, evs);
      StreamFramesStep(arg, room, evs, VIDEO_PID);
      StreamFramesStep(arg, room, evs, AUDIO_PID);
    }
  }

  lemma NoFrames(arg: MuxArg, room: Room)
    ensures StreamFrames(arg, room, [], VIDEO_PID) == [] && StreamFrames(arg, room, [], AUDIO_PID) == []
  {}

  lemma PcrStep(arg: MuxArg, room: Room, evs: seq<Event>)
    requires evs != []
    ensures var ev, s, t := evs[|evs| - 1], Run(arg, room, evs[..|evs| - 1]), Run(arg, room, evs);
            && t.pcrDone == (s.pcrDone || ev.Video?)
            && LastFrame(arg, room, evs).withPcr == (ev.Video? && !s.pcrDone)
  {
    hide Packets, Run, Tables, SendFrame;
    var ev, s1 := evs[|evs| - 1], Before(arg, room, evs);
    TablesOnce(arg, room, evs[..|evs| - 1]);
    TablesFacts(arg, room);
    RunStep(arg, room, evs);
    SendFacts(if ev.Video? then s1.(pcrDone := true) else s1, LastFrame(arg, room, evs), ev.Pid(), ev.Video? && ev.key);
  }
}
