/**
 The slice multiplexer: audio and video frames become transport packets with
 per-PID continuity counters, packets go to a fixed append buffer, and keyframe
 byte ranges are recorded while they do.

 Slice is the state of one slice as a value, Mux its transition; the class
 Muxer refines Mux in place.
 */
module TsMux {
  import opened Bytes
  import opened MpegTs
  import opened Psi
  import opened AppendQueue

  const SDT_PID: nat := 0x11
  const PIDS: seq<nat> := [AUDIO_PID, VIDEO_PID, PAT_PID, PMT_PID, SDT_PID]
  const MAX_META := 10

  datatype AudioFormat = NoAudio | Pcmu | Pcma | Aac

  datatype MuxArg = MuxArg(audio: AudioFormat, video: VideoFormat, sampleRate: nat)

  /** LinkKeyFrameMetaInfo: the timestamp keeps its low 33 bits. */
  datatype KeyframeMeta = KeyframeMeta(timestamp: nat, offset: nat, length: nat)

  /** LINK_NO_MEMORY */
  const NO_MEMORY: int := -1000

  /** Where the packets of a slice go: a buffer of cap bytes, which is there from the push after the first waits on. */
  datatype Room = Room(cap: nat, waits: nat)

  /** refused are the packets handed over while there was no buffer, emitted those handed to it. */
  datatype Slice = Slice(
    counters: seq<nat>,
    tables: bool,
    pcrDone: bool,
    pos: nat,
    cap: nat,
    waits: nat,
    refused: seq<seq<Byte>>,
    emitted: seq<seq<Byte>>,
    stored: seq<Byte>,
    index: seq<KeyframeMeta>)
  {
    predicate Valid() {
      |counters| == 5 && forall i :: 0 <= i < 5 ==> counters[i] < 16
    }

    /** Every packet the muxer handed over. */
    function Sent(): seq<seq<Byte>> {
      refused + emitted
    }
  }

  datatype Event =
    | Audio(data: seq<Byte>, ms: int)
    | Video(data: seq<Byte>, ms: int, key: bool)
  {
    /** An audio frame must fit one PES; the code asserts it. */
    predicate Sendable() {
      Audio? ==> |data| + 8 <= 65535
    }

    function Pid(): (pid: nat)
      ensures pid < 0x2000
    {
      if Audio? then AUDIO_PID else VIDEO_PID
    }
  }

  function EmptySlice(room: Room): (s: Slice)
    ensures s.Valid()
  {
    Slice([0, 0, 0, 0, 0], false, false, 0, room.cap, room.waits, [], [], [], [])
  }

  function SlotOf(pid: nat): (i: nat)
    requires pid in PIDS
    ensures i < 5 && PIDS[i] == pid
  {
    if pid == AUDIO_PID then 0 else if pid == VIDEO_PID then 1
    else if pid == PAT_PID then 2 else if pid == PMT_PID then 3 else 4
  }

  function Counter(s: Slice, pid: nat): (c: nat)
    requires s.Valid() && pid in PIDS
    ensures c < 16
  {
    s.counters[SlotOf(pid)]
  }

  function PmtArgOf(arg: MuxArg): PmtArg {
    PmtArg(
      match arg.video case NoVideo => 0 case H264 => 0x1b case H265 => 0x24,
      match arg.audio case NoAudio => 0 case Aac => 0x0f case _ => PRIVATE_DATA,
      if arg.audio == Pcma then 'a' as int else 'u' as int,
      arg.sampleRate)
  }

  /** One packet handed to the output: without a buffer it is lost; a buffer takes it whole or not at all. */
  function Put(s: Slice, pid: nat, p: seq<Byte>): (t: Slice)
    requires s.Valid() && pid in PIDS
    ensures t.Valid()
  {
    var i := SlotOf(pid);
    var s1 := s.(counters := s.counters[i := (s.counters[i] + 1) % 16]);
    if s.waits > 0 then s1.(waits := s.waits - 1, refused := s.refused + [p])
    else
      s1.(emitted := s.emitted + [p],
          stored := if |p| + |s.stored| > s.cap then s.stored else s.stored + p)
  }

  function PutAll(s: Slice, pid: nat, ps: seq<seq<Byte>>): (t: Slice)
    requires s.Valid() && pid in PIDS
    ensures t.Valid()
    decreases |ps|
  {
    if ps == [] then s else PutAll(Put(s, pid, ps[0]), pid, ps[1..])
  }

  /** writeTable: what becomes of the two packets is not asked. */
  function WriteTables(arg: MuxArg, s: Slice): (t: Slice)
    requires s.Valid()
    ensures t.Valid() && t.tables
  {
    if s.tables then s
    else
      var s1 := Put(s, PAT_PID, PatPacket(Counter(s, PAT_PID)));
      var s2 := Put(s1, PMT_PID, PmtPacket(PmtArgOf(arg), Counter(s1, PMT_PID)));
      s2.(tables := true, pos := 188 * 2)
  }

  /** The frame a push turns into a PES: only the first video frame of a slice carries a PCR. */
  function FrameOf(arg: MuxArg, s: Slice, ev: Event): Frame {
    match ev
    case Audio(data, ms) => Frame(data, if arg.audio == Aac then 0xC0 else 0xBD, ms * 90, false, NoVideo)
    case Video(data, ms, _) => Frame(data, 0xE0, ms * 90, !s.pcrDone, arg.video)
  }

  function AddMeta(index: seq<KeyframeMeta>, m: KeyframeMeta): seq<KeyframeMeta> {
    if |index| < MAX_META then index + [m] else index
  }

  /** Whether a frame fails for want of a buffer: its first packet finds none. */
  predicate NoRoom(s: Slice, f: Frame) {
    s.waits > 0 && f.es != []
  }

  /**
   makeTsPacket: every packet of the frame, then the index entry if all of them were stored; without a buffer the
   frame is given up at its first packet.
   */
  function SendFrame(s: Slice, f: Frame, pid: nat, key: bool): (t: Slice)
    requires s.Valid() && pid in {AUDIO_PID, VIDEO_PID}
    ensures t.Valid()
  {
    if NoRoom(s, f) then Put(s, pid, Packet(f, 0, pid, Counter(s, pid)))
    else
      var ps := Packets(f, 0, pid, Counter(s, pid));
      var t := PutAll(s, pid, ps);
      var ok := |t.stored| == |s.stored| + 188 * |ps|;
      var m := KeyframeMeta(f.pts % 0x2_0000_0000, s.pos, 188 * |ps|);
      t.(pos := if ok then s.pos + 188 * |ps| else s.pos,
         index := if key && ok then AddMeta(s.index, m) else s.index)
  }

  function Mux(arg: MuxArg, s: Slice, ev: Event): (t: Slice)
    requires s.Valid()
    ensures t.Valid()
  {
    var s1 := WriteTables(arg, s);
    var f := FrameOf(arg, s1, ev);
    SendFrame(if ev.Video? then s1.(pcrDone := true) else s1, f, ev.Pid(), ev.Video? && ev.key)
  }

  /** What a push returns. */
  function MuxResult(arg: MuxArg, s: Slice, ev: Event): int
    requires s.Valid()
  {
    if WriteTables(arg, s).waits > 0 && ev.data != [] then NO_MEMORY else 0
  }

  /** Putting a packet advances one counter, and neither reads nor writes the keyframe position. */
  lemma PutFacts(s: Slice, pid: nat, p: seq<Byte>, pos: nat)
    requires s.Valid() && pid in PIDS
    ensures Counter(Put(s, pid, p), pid) == (Counter(s, pid) + 1) % 16
    ensures Put(s.(pos := pos), pid, p) == Put(s, pid, p).(pos := pos)
    ensures Put(s, pid, p).pos == s.pos && Put(s, pid, p).index == s.index
    ensures Put(s, pid, p).tables == s.tables && Put(s, pid, p).pcrDone == s.pcrDone && Put(s, pid, p).cap == s.cap
    ensures Put(s, pid, p).waits == if s.waits > 0 then s.waits - 1 else 0
    ensures |Put(s, pid, p).stored| == if s.waits > 0 || |p| + |s.stored| > s.cap then |s.stored| else |s.stored| + |p|
  {}

  /** The slice after a sequence of pushes. */
  function Run(arg: MuxArg, room: Room, evs: seq<Event>): (t: Slice)
    ensures t.Valid()
  {
    if evs == [] then EmptySlice(room) else Mux(arg, Run(arg, room, evs[..|evs| - 1]), evs[|evs| - 1])
  }

  // ---- the muxer object

  /**
   The loop invariant of makeTsPacket, between the slice s0 before a frame and
   the slice cur when the frame has been sent up to position at.
   */
  ghost predicate Progress(s0: Slice, f: Frame, pid: nat, cur: Slice, at: nat, keyframeLen: nat, ok: bool)
    requires s0.Valid() && cur.Valid() && pid in {AUDIO_PID, VIDEO_PID} && at <= |f.es|
  {
    var ps := Packets(f, 0, pid, Counter(s0, pid));
    var rest := Packets(f, at, pid, Counter(cur, pid));
    var sent := |ps| - |rest|;
    && sent >= 0 && cur.waits == s0.waits && (s0.waits > 0 ==> at == 0 && cur == s0 && ok)
    && PutAll(s0, pid, ps) == PutAll(cur.(pos := s0.pos), pid, rest)
    && cur.tables == s0.tables && cur.pcrDone == s0.pcrDone && cur.index == s0.index && cur.cap == s0.cap
    && (ok ==> keyframeLen == 188 * sent && cur.pos == s0.pos + keyframeLen && |cur.stored| == |s0.stored| + 188 * sent)
    && (!ok ==> cur.pos == s0.pos && |cur.stored| + 188 > cur.cap && |cur.stored| < |s0.stored| + 188 * sent)
  }

  lemma ProgressDone(s0: Slice, f: Frame, pid: nat, cur: Slice, keyframeLen: nat, ok: bool)
    requires s0.Valid() && cur.Valid() && pid in {AUDIO_PID, VIDEO_PID} && !NoRoom(s0, f)
    requires Progress(s0, f, pid, cur, |f.es|, keyframeLen, ok)
    ensures var ps := Packets(f, 0, pid, Counter(s0, pid));
            && cur.(pos := s0.pos) == PutAll(s0, pid, ps)
            && ok == (|cur.stored| == |s0.stored| + 188 * |ps|)
            && (ok ==> keyframeLen == 188 * |ps|)
            && cur.pos == if ok then s0.pos + 188 * |ps| else s0.pos
  {
    hide Packet, ReadLen, Put, SlotOf;
    assert Packets(f, |f.es|, pid, Counter(cur, pid)) == [];
  }

  class Muxer {
    const arg: MuxArg
    const pidCounters: array<nat>
    const tsPacket: array<Byte>
    const pes: Pes
    const output: AppendBuffer
    var isTableWrited: bool
    var pcrFlag: bool
    var currentPos: nat
    var index: seq<KeyframeMeta>
    var waits: nat
    ghost var refused: seq<seq<Byte>>
    ghost var emitted: seq<seq<Byte>>

    ghost predicate Valid()
      reads this, pidCounters, tsPacket, pes, output
    {
      && pidCounters.Length == 5 && (forall i :: 0 <= i < 5 ==> pidCounters[i] < 16)
      && tsPacket.Length == TS_PACKET_LEN && tsPacket != output.data
      && output.Valid()
    }

    ghost function Abs(): (s: Slice)
      requires Valid()
      reads this, pidCounters, tsPacket, pes, output, output.data
      ensures s.Valid()
    {
      Slice(pidCounters[..], isTableWrited, pcrFlag, currentPos, output.data.Length, waits, refused, emitted,
            output.Contents(), index)
    }

    constructor (arg: MuxArg, output: AppendBuffer, waits: nat)
      requires output.Valid() && output.Contents() == []
      ensures Valid() && fresh(pidCounters) && fresh(tsPacket) && fresh(pes) && this.output == output && this.arg == arg
      ensures Abs() == EmptySlice(Room(output.data.Length, waits))
    {
      this.arg := arg;
      this.output := output;
      var counters := new nat[5](_ => 0);
      pidCounters := counters;
      tsPacket := new Byte[TS_PACKET_LEN](_ => 0);
      pes := new Pes();
      isTableWrited, pcrFlag, currentPos, index := false, false, 0, [];
      this.waits, refused, emitted := waits, [], [];
      new;
      assert pidCounters[..] == [0, 0, 0, 0, 0];
    }

    /** Hands out the counter of a PID and advances it, 15 being followed by 0. */
    method GetPidCounter(pid: nat) returns (count: nat)
      requires Valid() && pid in PIDS
      modifies pidCounters
      ensures Valid() && count == old(pidCounters[SlotOf(pid)]) < 16
      ensures pidCounters[..] == old(pidCounters[..])[SlotOf(pid) := (count + 1) % 16]
    {
      var i := 0;
      while PIDS[i] != pid
        invariant 0 <= i <= SlotOf(pid)
        decreases 5 - i
      {
        i := i + 1;
      }
      assert i == SlotOf(pid);
      count := pidCounters[i];
      if pidCounters[i] == 0x0F {
        pidCounters[i] := 0;
        return 0x0F;
      }
      pidCounters[i] := pidCounters[i] + 1;
    }

    /** writeTsPacketToMem on the shared packet buffer: streamPushData finds a buffer or not. */
    method Output() returns (ret: int)
      requires Valid()
      modifies this`waits, this`refused, this`emitted, output, output.data
      ensures Valid() && tsPacket[..] == old(tsPacket[..])
      ensures old(waits) > 0 ==>
                && ret == NO_MEMORY && waits == old(waits) - 1 && refused == old(refused) + [old(tsPacket[..])]
                && emitted == old(emitted) && output.len == old(output.len)
                && output.Contents() == old(output.Contents())
      ensures old(waits) == 0 ==>
                waits == 0 && refused == old(refused) && emitted == old(emitted) + [old(tsPacket[..])]
      ensures old(waits) == 0 && old(output.len) + TS_PACKET_LEN > output.data.Length ==>
                ret == 0 && output.Contents() == old(output.Contents())
      ensures old(waits) == 0 && old(output.len) + TS_PACKET_LEN <= output.data.Length ==>
                ret == TS_PACKET_LEN && output.Contents() == old(output.Contents()) + old(tsPacket[..])
    {
      if waits > 0 {
        waits, refused := waits - 1, refused + [tsPacket[..]];
        return NO_MEMORY;
      }
      ret := output.Push(tsPacket[..]);
      emitted := emitted + [tsPacket[..]];
    }

    /** memset of the tail of a table packet, then output. */
    method OutputTable(n: nat, ghost pid: nat, ghost count: nat, ghost section: seq<Byte>, ghost before: Slice)
      requires Valid() && pid in PIDS && count < 16 && n <= 5 + |section| <= 188
      requires tsPacket[..n] == (TsHeader(true, count, pid, JUST_PAYLOAD) + [0] + section)[..n]
      requires before.Valid() && count == Counter(before, pid)
      requires Abs() == before.(counters := before.counters[SlotOf(pid) := (count + 1) % 16])
      modifies this`waits, this`refused, this`emitted, tsPacket, output, output.data
      ensures Valid() && Abs() == Put(before, pid, TablePacket(pid, count, section, n))
    {
      ghost var was := tsPacket[..];
      Memcpy(tsPacket, n, Fill(0xff, 188 - n));
      SplicePrefix(was, n, Fill(0xff, 188 - n));
      assert tsPacket[..] == TablePacket(pid, count, section, n);
      var _ := Output();
    }

    method WritePatPacket()
      requires Valid()
      modifies this`waits, this`refused, this`emitted, pidCounters, tsPacket, output, output.data
      ensures Valid() && Abs() == Put(old(Abs()), PAT_PID, PatPacket(Counter(old(Abs()), PAT_PID)))
    {
      hide Section, PAT_BODY, TablePacket, TsHeader;
      ghost var s := Abs();
      var count := GetPidCounter(PAT_PID);
      var n := WritePat(tsPacket, count);
      OutputTable(n, PAT_PID, count, Section(PAT_BODY), s);
    }

    method WritePmtPacket()
      requires Valid()
      requires arg.audio != NoAudio || arg.video != NoVideo
      modifies this`waits, this`refused, this`emitted, pidCounters, tsPacket, output, output.data
      ensures Valid() && Abs() == Put(old(Abs()), PMT_PID, PmtPacket(PmtArgOf(arg), Counter(old(Abs()), PMT_PID)))
    {
      hide Section, PmtBody, TablePacket, TsHeader, PmtReported;
      ghost var s := Abs();
      var count := GetPidCounter(PMT_PID);
      var n := WritePmt(tsPacket, count, PmtArgOf(arg));
      OutputTable(n, PMT_PID, count, Section(PmtBody(PmtArgOf(arg))), s);
    }

    method WriteTable()
      requires Valid()
      requires arg.audio != NoAudio || arg.video != NoVideo
      modifies this, pidCounters, tsPacket, output, output.data
      ensures Valid() && Abs() == WriteTables(arg, old(Abs()))
      ensures pes.frame == old(pes.frame) && pes.pos == old(pes.pos)
    {
      hide PatPacket, PmtPacket, PmtArgOf;
      if isTableWrited {
        return;
      }
      WritePatPacket();
      WritePmtPacket();
      isTableWrited := true;
      currentPos := 188 * 2;
    }

    /** One round of the packet loop: the next packet of the frame, its counter, and the output. */
    method SendPacket(pid: nat) returns (ret: int)
      requires Valid() && pid in {AUDIO_PID, VIDEO_PID}
      requires pes.pos < |pes.frame.es| && pes.frame.Sendable()
      modifies this`waits, this`refused, this`emitted, pidCounters, tsPacket, pes`pos, output, output.data
      ensures Valid()
      ensures Abs() == Put(old(Abs()), pid, Packet(pes.frame, old(pes.pos), pid, Counter(old(Abs()), pid)))
      ensures pes.pos == old(pes.pos) + ReadLen(pes.frame, old(pes.pos))
      ensures ret == if old(waits) > 0 then NO_MEMORY
                     else if old(output.len) + TS_PACKET_LEN > output.data.Length then 0 else TS_PACKET_LEN
      ensures output.len == old(output.len) + if ret > 0 then ret else 0
    {
      hide Packet, ReadLen, Packets, PmtPacket;
      ghost var s := Abs();
      NextPacket(pid);
      assert Abs() == s.(counters := s.counters[SlotOf(pid) := (Counter(s, pid) + 1) % 16]);
      ret := Output();
    }

    /** The next packet of the frame, numbered, in the packet buffer. */
    method NextPacket(pid: nat)
      requires Valid() && pid in {AUDIO_PID, VIDEO_PID}
      requires pes.pos < |pes.frame.es| && pes.frame.Sendable()
      modifies pidCounters, tsPacket, pes`pos
      ensures Valid() && pes.pos == old(pes.pos) + ReadLen(pes.frame, old(pes.pos))
      ensures tsPacket[..] == Packet(pes.frame, old(pes.pos), pid, old(pidCounters[SlotOf(pid)]))
      ensures pidCounters[..] == old(pidCounters[..])[SlotOf(pid) := (old(pidCounters[SlotOf(pid)]) + 1) % 16]
    {
      hide Packet, ReadLen, Packets, PmtPacket, SlotOf;
      var _ := pes.GetPesData(0, pid, tsPacket, TS_PACKET_LEN);
      var count := GetPidCounter(pid);
      PacketCounter(pes.frame, old(pes.pos), pid, count);
      WriteContinuityCounter(tsPacket, count);
    }

    /** One round of the packet loop with its bookkeeping; a negative result ends the loop. */
    method SendStep(pid: nat, keyframePos: nat, keyframeLen: nat, ok: bool, ghost s0: Slice)
      returns (ret: int, keyframeLen': nat, ok': bool)
      requires Valid() && pid in {AUDIO_PID, VIDEO_PID} && s0.Valid() && s0.pos == keyframePos
      requires pes.pos < |pes.frame.es| && pes.frame.Sendable()
      requires Progress(s0, pes.frame, pid, Abs(), pes.pos, keyframeLen, ok)
      modifies this`waits, this`refused, this`emitted, this`currentPos, pidCounters, tsPacket, pes`pos
      modifies output, output.data
      ensures Valid() && pes.pos == old(pes.pos) + ReadLen(pes.frame, old(pes.pos))
      ensures ret == NO_MEMORY || ret >= 0
      ensures ret < 0 <==> s0.waits > 0
      ensures ret < 0 ==> Abs() == Put(s0, pid, Packet(pes.frame, 0, pid, Counter(s0, pid)))
      ensures ret >= 0 ==> Progress(s0, pes.frame, pid, Abs(), pes.pos, keyframeLen', ok')
    {
      hide Packet, ReadLen, PmtPacket, PatPacket, Put, SlotOf;
      keyframeLen', ok' := keyframeLen, ok;
      ghost var before, f := Abs(), pes.frame;
      ghost var rest := Packets(f, pes.pos, pid, Counter(before, pid));
      ret := SendPacket(pid);
      if ret < 0 {
        return;
      }
      ghost var after := Abs();
      assert after == Put(before, pid, rest[0]);
      PutFacts(before, pid, rest[0], s0.pos);
      assert rest[1..] == Packets(f, pes.pos, pid, Counter(after, pid));
      if ret > 0 {
        currentPos := currentPos + 188;
        keyframeLen' := keyframeLen + 188;
      } else {
        ok' := false;
        currentPos := keyframePos;
      }
      assert Abs() == after.(pos := currentPos);
    }

    /** The packets of the frame in pes, then its index entry if it is a keyframe that was stored whole. */
    method MakeTsPacket(pid: nat, isKeyframe: bool) returns (ret: int)
      requires Valid() && pid in {AUDIO_PID, VIDEO_PID}
      requires pes.pos == 0 && pes.frame.Sendable()
      modifies this, pidCounters, tsPacket, pes`pos, output, output.data
      ensures Valid() && Abs() == SendFrame(old(Abs()), pes.frame, pid, isKeyframe)
      ensures ret == if NoRoom(old(Abs()), pes.frame) then NO_MEMORY else 0
    {
      hide Packet, ReadLen, PmtPacket, PatPacket, Put, SlotOf;
      ghost var s0, f := Abs(), pes.frame;
      var keyframeLen := 0;
      var keyframePos := currentPos;
      var ok := true;
      while pes.pos != |pes.frame.es|
        invariant Valid() && pes.pos <= |f.es| && Progress(s0, f, pid, Abs(), pes.pos, keyframeLen, ok)
        decreases |f.es| - pes.pos
      {
        ret, keyframeLen, ok := SendStep(pid, keyframePos, keyframeLen, ok, s0);
        if ret < 0 {
          return;
        }
      }
      ret := 0;
      ProgressDone(s0, f, pid, Abs(), keyframeLen, ok);
      if isKeyframe && ok {
        if |index| < MAX_META {
          index := index + [KeyframeMeta(pes.frame.pts % 0x2_0000_0000, keyframePos, keyframeLen)];
        }
      }
    }

    method MuxAudio(data: seq<Byte>, ms: int) returns (ret: int)
      requires Valid() && Audio(data, ms).Sendable()
      requires arg.audio != NoAudio || arg.video != NoVideo
      modifies this, pidCounters, tsPacket, pes, output, output.data
      ensures Valid() && Abs() == Mux(arg, old(Abs()), Audio(data, ms))
      ensures ret == MuxResult(arg, old(Abs()), Audio(data, ms))
    {
      WriteTable();
      pes.Init(data, if arg.audio == Aac then 0xC0 else 0xBD, ms, false, NoVideo);
      ret := MakeTsPacket(AUDIO_PID, false);
    }

    method MuxVideo(data: seq<Byte>, ms: int, key: bool) returns (ret: int)
      requires Valid()
      requires arg.audio != NoAudio || arg.video != NoVideo
      modifies this, pidCounters, tsPacket, pes, output, output.data
      ensures Valid() && Abs() == Mux(arg, old(Abs()), Video(data, ms, key))
      ensures ret == MuxResult(arg, old(Abs()), Video(data, ms, key))
    {
      WriteTable();
      if !pcrFlag {
        pcrFlag := true;
        pes.Init(data, 0xE0, ms, true, arg.video);
      } else {
        pes.Init(data, 0xE0, ms, false, arg.video);
      }
      ret := MakeTsPacket(VIDEO_PID, key);
    }
  }
}
