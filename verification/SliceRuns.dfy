/**
 What holds of a slice after any interleaving of audio and video frames: the
 stored bytes, the keyframe index, and what a receiver of the packets sees.
 */
module SliceRuns {
  import opened Bytes
  import opened MpegTs
  import opened TsDemux
  import opened Psi
  import opened TsMux

  // ---- the stored bytes are whole packets, a prefix of what was emitted

  ghost predicate StoredPrefix(s: Slice) {
    && (forall i :: 0 <= i < |s.emitted| ==> |s.emitted[i]| == TS_PACKET_LEN)
    && |s.stored| % 188 == 0
    && |s.stored| / 188 <= |s.emitted|
    && s.stored == Flatten(s.emitted[..|s.stored| / 188])
    && (|s.stored| / 188 == |s.emitted| || |s.stored| + 188 > s.cap)
    && (s.waits > 0 ==> s.emitted == [])
  }

  lemma PutKeepsPrefix(s: Slice, pid: nat, p: seq<Byte>)
    requires s.Valid() && pid in PIDS && |p| == TS_PACKET_LEN && StoredPrefix(s)
    ensures StoredPrefix(Put(s, pid, p))
  {
    hide PIDS, SlotOf;
    var t := Put(s, pid, p);
    var n := |s.stored| / 188;
    assert t.emitted[..n] == s.emitted[..n];
    if s.waits == 0 && 188 + |s.stored| <= s.cap {
      assert t.emitted[..n + 1] == s.emitted[..n] + [p];
      FlattenAppend(s.emitted[..n], [p]);
      FlattenSingle(p);
    }
  }

  lemma {:induction false} PutAllKeepsPrefix(s: Slice, pid: nat, ps: seq<seq<Byte>>)
    requires s.Valid() && pid in PIDS && StoredPrefix(s)
    requires forall i :: 0 <= i < |ps| ==> |ps[i]| == TS_PACKET_LEN
    ensures StoredPrefix(PutAll(s, pid, ps))
    decreases |ps|
  {
    hide PIDS, Put, StoredPrefix;
    if ps != [] {
      PutKeepsPrefix(s, pid, ps[0]);
      PutAllKeepsPrefix(Put(s, pid, ps[0]), pid, ps[1..]);
    }
  }

  lemma PrefixIgnoresIndex(s: Slice, t: Slice)
    requires StoredPrefix(s) && t.emitted == s.emitted && t.stored == s.stored
    requires t.cap == s.cap && t.waits == s.waits
    ensures StoredPrefix(t)
  {}

  lemma {:induction false} RunKeepsPrefix(arg: MuxArg, room: Room, evs: seq<Event>)
    ensures StoredPrefix(Run(arg, room, evs))
    decreases |evs|
  {
    if evs != [] {
      var ev := evs[|evs| - 1];
      var s := Run(arg, room, evs[..|evs| - 1]);
      RunKeepsPrefix(arg, room, evs[..|evs| - 1]);
      TablesKeepPrefix(arg, s);
      var s1 := WriteTables(arg, s);
      var f := FrameOf(arg, s1, ev);
      var s2 := if ev.Video? then s1.(pcrDone := true) else s1;
      PrefixIgnoresIndex(s1, s2);
      SendKeepsPrefix(s2, f, ev.Pid(), ev.Video? && ev.key);
    }
  }

  lemma TablesKeepPrefix(arg: MuxArg, s: Slice)
    requires s.Valid() && StoredPrefix(s)
    ensures StoredPrefix(WriteTables(arg, s))
  {
    hide PatPacket, PmtPacket, Put, StoredPrefix;
    if !s.tables {
      PutKeepsPrefix(s, PAT_PID, PatPacket(Counter(s, PAT_PID)));
      var s1 := Put(s, PAT_PID, PatPacket(Counter(s, PAT_PID)));
      PutKeepsPrefix(s1, PMT_PID, PmtPacket(PmtArgOf(arg), Counter(s1, PMT_PID)));
      PrefixIgnoresIndex(Put(s1, PMT_PID, PmtPacket(PmtArgOf(arg), Counter(s1, PMT_PID))), WriteTables(arg, s));
    }
  }

  lemma SendKeepsPrefix(s: Slice, f: Frame, pid: nat, key: bool)
    requires s.Valid() && pid in {AUDIO_PID, VIDEO_PID} && StoredPrefix(s)
    ensures StoredPrefix(SendFrame(s, f, pid, key))
  {
    hide Packet, Packets, Put, PutAll, StoredPrefix;
    var c := Counter(s, pid);
    if NoRoom(s, f) {
      PutKeepsPrefix(s, pid, Packet(f, 0, pid, c));
    } else {
      PutAllKeepsPrefix(s, pid, Packets(f, 0, pid, c));
      PrefixIgnoresIndex(PutAll(s, pid, Packets(f, 0, pid, c)), SendFrame(s, f, pid, key));
    }
  }

  // ---- what a run emits

  lemma CounterSteps(c: nat, n: nat)
    requires n > 0
    ensures ((c + 1) % 16 + (n - 1)) % 16 == (c + n) % 16
  {}

  lemma {:induction false} PutAllAppends(s: Slice, pid: nat, ps: seq<seq<Byte>>)
    requires s.Valid() && pid in PIDS && (s.waits == 0 || ps == [])
    ensures var t := PutAll(s, pid, ps);
            && t.emitted == s.emitted + ps && t.refused == s.refused && t.waits == s.waits
            && t.counters == s.counters[SlotOf(pid) := (s.counters[SlotOf(pid)] + |ps|) % 16]
            && t.cap == s.cap && t.tables == s.tables && t.pcrDone == s.pcrDone && t.pos == s.pos && t.index == s.index
    decreases |ps|
  {
    hide SlotOf, PIDS;
    if ps == [] {
      assert s.emitted + ps == s.emitted;
      assert s.counters[SlotOf(pid)] % 16 == s.counters[SlotOf(pid)];
    } else {
      var c := s.counters[SlotOf(pid)];
      PutAllAppends(Put(s, pid, ps[0]), pid, ps[1..]);
      assert s.emitted + [ps[0]] + ps[1..] == s.emitted + ps;
      CounterSteps(c, |ps|);
    }
  }

  /** The slice as it is when the frame of an event is about to be sent. */
  function Before(arg: MuxArg, room: Room, evs: seq<Event>): (s: Slice)
    requires evs != []
    ensures s.Valid() && s.tables
  {
    WriteTables(arg, Run(arg, room, evs[..|evs| - 1]))
  }

  function LastFrame(arg: MuxArg, room: Room, evs: seq<Event>): Frame
    requires evs != []
  {
    FrameOf(arg, Before(arg, room, evs), evs[|evs| - 1])
  }

  /** The packets of the last frame that a buffer got to see. */
  function LastPackets(arg: MuxArg, room: Room, evs: seq<Event>): seq<seq<Byte>>
    requires evs != []
  {
    var pid, s, f := evs[|evs| - 1].Pid(), Before(arg, room, evs), LastFrame(arg, room, evs);
    if NoRoom(s, f) then [] else Packets(f, 0, pid, Counter(s, pid))
  }

  /** The packet at which the last frame was given up. */
  function LastRefused(arg: MuxArg, room: Room, evs: seq<Event>): seq<seq<Byte>>
    requires evs != []
  {
    var pid, s, f := evs[|evs| - 1].Pid(), Before(arg, room, evs), LastFrame(arg, room, evs);
    if NoRoom(s, f) then [Packet(f, 0, pid, Counter(s, pid))] else []
  }

  function Tables(arg: MuxArg): seq<seq<Byte>> {
    [PatPacket(0), PmtPacket(PmtArgOf(arg), 0)]
  }

  /** How many of the tables find no buffer. */
  function TablesLost(room: Room): (n: nat)
    ensures n <= 2
  {
    if room.waits < 2 then room.waits else 2
  }

  lemma TablesFacts(arg: MuxArg, room: Room)
    ensures var t := WriteTables(arg, EmptySlice(room));
            && t.refused == Tables(arg)[..TablesLost(room)] && t.emitted == Tables(arg)[TablesLost(room)..]
            && t.counters == [0, 0, 1, 1, 0] && t.cap == room.cap && t.waits == room.waits - TablesLost(room)
            && !t.pcrDone && t.pos == 376 && t.index == []
  {
    hide PatPacket, PmtPacket, PmtArgOf;
    var pat, pmt := PatPacket(0), PmtPacket(PmtArgOf(arg), 0);
    assert Tables(arg)[..1] == [pat] && Tables(arg)[1..] == [pmt];
    assert [] + [pat] == [pat] && [pat] + [pmt] == Tables(arg) && [] + [pmt] == [pmt];
  }

  lemma SendFacts(s: Slice, f: Frame, pid: nat, key: bool)
    requires s.Valid() && pid in {AUDIO_PID, VIDEO_PID}
    ensures var ps := Packets(f, 0, pid, Counter(s, pid));
            var t := SendFrame(s, f, pid, key);
            var out := if NoRoom(s, f) then [Packet(f, 0, pid, Counter(s, pid))] else ps;
            && t.emitted == s.emitted + (if NoRoom(s, f) then [] else ps)
            && t.refused == s.refused + (if NoRoom(s, f) then out else [])
            && t.waits == (if NoRoom(s, f) then s.waits - 1 else s.waits)
            && t.counters == s.counters[SlotOf(pid) := (Counter(s, pid) + |out|) % 16]
            && t.cap == s.cap && t.tables == s.tables && t.pcrDone == s.pcrDone
  {
    hide Packet, SlotOf, PutAll;
    var ps := Packets(f, 0, pid, Counter(s, pid));
    assert s.emitted + [] == s.emitted && s.refused + [] == s.refused;
    if !NoRoom(s, f) {
      assert f.es == [] ==> ps == [];
      PutAllAppends(s, pid, ps);
    }
  }

  lemma {:induction false} TablesOnce(arg: MuxArg, room: Room, evs: seq<Event>)
    ensures var s := Run(arg, room, evs);
            s.tables == (evs != []) && s.cap == room.cap && (evs == [] ==> s == EmptySlice(room))
    decreases |evs|
  {
    hide PatPacket, PmtPacket, Packets, SendFrame, SlotOf, FrameOf;
    if evs != [] {
      TablesOnce(arg, room, evs[..|evs| - 1]);
      TablesFacts(arg, room);
      var s1 := Before(arg, room, evs);
      var ev := evs[|evs| - 1];
      var s2 := if ev.Video? then s1.(pcrDone := true) else s1;
      SendFacts(s2, LastFrame(arg, room, evs), ev.Pid(), ev.Video? && ev.key);
    }
  }

  /** The first push puts the tables in front; later ones find them written. */
  lemma BeforeFacts(arg: MuxArg, room: Room, evs: seq<Event>)
    requires evs != []
    ensures var s, s1 := Run(arg, room, evs[..|evs| - 1]), Before(arg, room, evs);
            && s1.emitted == (if |evs| == 1 then Tables(arg)[TablesLost(room)..] else s.emitted)
            && s1.refused == (if |evs| == 1 then Tables(arg)[..TablesLost(room)] else s.refused)
            && s1.waits == (if |evs| == 1 then room.waits - TablesLost(room) else s.waits)
            && s1.counters == (if |evs| == 1 then [0, 0, 1, 1, 0] else s.counters)
            && s1.cap == room.cap
  {
    hide Tables, Run, PatPacket, PmtPacket, PmtArgOf, Put, SlotOf;
    TablesOnce(arg, room, evs[..|evs| - 1]);
    TablesFacts(arg, room);
  }

  lemma RunStep(arg: MuxArg, room: Room, evs: seq<Event>)
    requires evs != []
    ensures var ev, s1 := evs[|evs| - 1], Before(arg, room, evs);
            Run(arg, room, evs) == SendFrame(if ev.Video? then s1.(pcrDone := true) else s1, LastFrame(arg, room, evs),
                                            ev.Pid(), ev.Video? && ev.key)
  {
    hide SendFrame, FrameOf, WriteTables;
  }

  /** Each push appends the packets of its frame, or the one that was refused. */
  lemma RunEmits(arg: MuxArg, room: Room, evs: seq<Event>)
    requires evs != []
    ensures var s1, t := Before(arg, room, evs), Run(arg, room, evs);
            var pid := evs[|evs| - 1].Pid();
            var ps, out := LastPackets(arg, room, evs), LastRefused(arg, room, evs);
            && t.emitted == s1.emitted + ps && t.refused == s1.refused + out && t.waits == s1.waits - |out|
            && t.counters == s1.counters[SlotOf(pid) := (Counter(s1, pid) + |out| + |ps|) % 16]
            && t.cap == room.cap
  {
    hide Packets, SendFrame, SlotOf, FrameOf, Tables, WriteTables, Run;
    BeforeFacts(arg, room, evs);
    RunStep(arg, room, evs);
    var s1 := Before(arg, room, evs);
    var ev := evs[|evs| - 1];
    SendFacts(if ev.Video? then s1.(pcrDone := true) else s1, LastFrame(arg, room, evs), ev.Pid(), ev.Video? && ev.key);
  }

  // ---- the keyframe index

  /** Where a keyframe lies in everything its buffer was offered so far, stored or not. */
  type Nibble = n: nat | n < 16

  datatype KeyRange = KeyRange(frame: Frame, count: Nibble, offset: nat)
  {
    function Packets(): seq<seq<Byte>> {
      MpegTs.Packets(frame, 0, VIDEO_PID, count)
    }

    function Length(): nat {
      188 * |Packets()|
    }
  }

  /** Every keyframe of the run that found a buffer, in order, with the number of bytes offered before it. */
  function KeyRanges(arg: MuxArg, room: Room, evs: seq<Event>): seq<KeyRange>
    decreases |evs|
  {
    if evs == [] then []
    else
      var ev, s1 := evs[|evs| - 1], Before(arg, room, evs);
      KeyRanges(arg, room, evs[..|evs| - 1])
      + (if ev.Video? && ev.key && !NoRoom(s1, LastFrame(arg, room, evs)) then [LastRange(arg, room, evs)] else [])
  }

  /** The range of the last frame. */
  function LastRange(arg: MuxArg, room: Room, evs: seq<Event>): KeyRange
    requires evs != []
  {
    var s1 := Before(arg, room, evs);
    KeyRange(LastFrame(arg, room, evs), Counter(s1, VIDEO_PID), 188 * |s1.emitted|)
  }

  /** How far behind its keyframe an entry points: tables that were lost are still counted. */
  function Shift(room: Room): nat {
    188 * TablesLost(room)
  }

  /** What is written down of a keyframe. */
  function EntryOf(r: KeyRange, shift: nat): KeyframeMeta {
    KeyframeMeta(r.frame.pts % 0x2_0000_0000, r.offset + shift, r.Length())
  }

  /** The first ten keyframes that lie wholly within limit bytes; with no shift, the index a reader would want. */
  function Entries(ranges: seq<KeyRange>, shift: nat, limit: nat): seq<KeyframeMeta>
    decreases |ranges|
  {
    if ranges == [] then []
    else
      var r := ranges[|ranges| - 1];
      var before := Entries(ranges[..|ranges| - 1], shift, limit);
      if r.offset + r.Length() <= limit then AddMeta(before, EntryOf(r, shift)) else before
  }

  /** The ranges that lie wholly within limit bytes. */
  function Fitting(ranges: seq<KeyRange>, limit: nat): seq<KeyRange>
    decreases |ranges|
  {
    if ranges == [] then []
    else
      var r := ranges[|ranges| - 1];
      Fitting(ranges[..|ranges| - 1], limit) + if r.offset + r.Length() <= limit then [r] else []
  }

  /** An entry for each of the first ten of them, and for no other. */
  lemma {:induction false} EntriesAre(ranges: seq<KeyRange>, shift: nat, limit: nat)
    ensures var es, fit := Entries(ranges, shift, limit), Fitting(ranges, limit);
            && |es| == (if |fit| < 10 then |fit| else 10)
            && forall i :: 0 <= i < |es| ==>
                 && es[i].timestamp == fit[i].frame.pts % 0x2_0000_0000
                 && es[i].offset == fit[i].offset + shift && es[i].length == fit[i].Length()
    decreases |ranges|
  {
    hide KeyRange.Length;
    if ranges != [] {
      EntriesAre(ranges[..|ranges| - 1], shift, limit);
    }
  }

  lemma {:induction false} EntriesStable(ranges: seq<KeyRange>, shift: nat, a: nat, b: nat)
    requires forall i :: 0 <= i < |ranges| ==> ranges[i].offset + ranges[i].Length() <= a <= b
    ensures Entries(ranges, shift, a) == Entries(ranges, shift, b)
    decreases |ranges|
  {
    hide KeyRange.Length, AddMeta, EntryOf;
    if ranges != [] {
      var init := ranges[..|ranges| - 1];
      forall i | 0 <= i < |init|
        ensures init[i].offset + init[i].Length() <= a <= b
      {
        assert init[i] == ranges[i];
        assert ranges[i].offset + ranges[i].Length() <= a <= b;
      }
      EntriesStable(init, shift, a, b);
    }
  }

  /** Each keyframe's packets lie in the emitted sequence where its range says. */
  ghost predicate RangeIn(r: KeyRange, emitted: seq<seq<Byte>>) {
    && r.offset % 188 == 0
    && r.offset / 188 + |r.Packets()| <= |emitted|
    && emitted[r.offset / 188..r.offset / 188 + |r.Packets()|] == r.Packets()
  }

  lemma {:induction false} RangesIn(arg: MuxArg, room: Room, evs: seq<Event>)
    ensures forall i :: 0 <= i < |KeyRanges(arg, room, evs)| ==>
            RangeIn(KeyRanges(arg, room, evs)[i], Run(arg, room, evs).emitted)
    decreases |evs|
  {
    hide FrameOf, Run, Packets, Tables, KeyRanges, LastFrame, Before, RangeIn, KeyRange.Packets;
    if evs == [] {
      NoRanges(arg, room, 0);
    } else {
      var prev := evs[..|evs| - 1];
      RangesIn(arg, room, prev);
      RunEmits(arg, room, evs);
      BeforeFacts(arg, room, evs);
      KeyRangesStep(arg, room, evs);
      if |evs| == 1 {
        assert prev == [];
        NoRanges(arg, room, 0);
      }
      forall i | 0 <= i < |KeyRanges(arg, room, evs)|
        ensures RangeIn(KeyRanges(arg, room, evs)[i], Run(arg, room, evs).emitted)
      {
        var r := KeyRanges(arg, room, evs)[i];
        if i < |KeyRanges(arg, room, prev)| {
          assert r == KeyRanges(arg, room, prev)[i];
          RangeExtends(r, Run(arg, room, prev).emitted, LastPackets(arg, room, evs));
        } else {
          RangeIsPackets(r);
          assert LastPackets(arg, room, evs) == r.Packets();
          RangeAtEnd(r, Before(arg, room, evs).emitted);
        }
      }
    }
  }

  lemma RangeIsPackets(r: KeyRange)
    ensures r.Packets() == Packets(r.frame, 0, VIDEO_PID, r.count)
  {}

  lemma RangeExtends(r: KeyRange, emitted: seq<seq<Byte>>, more: seq<seq<Byte>>)
    requires RangeIn(r, emitted)
    ensures RangeIn(r, emitted + more)
  {
    hide KeyRange.Packets;
  }

  lemma RangeAtEnd(r: KeyRange, emitted: seq<seq<Byte>>)
    requires r.offset == 188 * |emitted|
    ensures RangeIn(r, emitted + r.Packets())
  {
    hide KeyRange.Packets;
    WholePackets(|emitted|);
    var ps := r.Packets();
    assert (emitted + ps)[|emitted|..|emitted| + |ps|] == ps;
  }

  lemma WholePackets(n: nat)
    ensures 188 * n % 188 == 0 && 188 * n / 188 == n
  {}

  /** Once a packet was refused, the buffer never changes again. */
  lemma {:induction false} PutAllFull(s: Slice, pid: nat, ps: seq<seq<Byte>>)
    requires s.Valid() && pid in PIDS && s.waits == 0 && |s.stored| + 188 > s.cap
    requires forall i :: 0 <= i < |ps| ==> |ps[i]| == TS_PACKET_LEN
    ensures PutAll(s, pid, ps).stored == s.stored
    decreases |ps|
  {
    hide SlotOf;
    if ps != [] {
      PutAllFull(Put(s, pid, ps[0]), pid, ps[1..]);
    }
  }

  /** One frame: it is indexed exactly when its whole range has been stored. */
  lemma SendIndexes(s: Slice, f: Frame, pid: nat, key: bool, shift: nat)
    requires s.Valid() && pid in {AUDIO_PID, VIDEO_PID} && StoredPrefix(s) && s.waits == 0 && f.es != []
    requires |s.stored| == 188 * |s.emitted| ==> s.pos == 188 * |s.emitted| + shift
    ensures var t := SendFrame(s, f, pid, key);
            var ps := Packets(f, 0, pid, Counter(s, pid));
            && (|t.stored| == 188 * |t.emitted| ==> t.pos == 188 * |t.emitted| + shift)
            && (|s.stored| != 188 * |s.emitted| ==> t.stored == s.stored)
            && |s.stored| <= |t.stored| <= 188 * |t.emitted|
            && t.index == if key && 188 * |s.emitted| + 188 * |ps| <= |t.stored|
                          then AddMeta(s.index, KeyframeMeta(f.pts % 0x2_0000_0000,
                                                             188 * |s.emitted| + shift, 188 * |ps|))
                          else s.index
  {
    hide Packet, ReadLen, PutAll, SlotOf, AddMeta;
    var ps := Packets(f, 0, pid, Counter(s, pid));
    SendFacts(s, f, pid, key);
    SendKeepsPrefix(s, f, pid, key);
    assert |ps| > 0;
    if |s.stored| != 188 * |s.emitted| {
      PutAllFull(s, pid, ps);
    } else {
      PutAllGrows(s, pid, ps);
    }
  }

  /** A frame without a buffer leaves buffer, index and position alone. */
  lemma SendRefused(s: Slice, f: Frame, pid: nat, key: bool)
    requires s.Valid() && pid in {AUDIO_PID, VIDEO_PID} && NoRoom(s, f)
    ensures var t := SendFrame(s, f, pid, key);
            t.index == s.index && t.stored == s.stored && t.emitted == s.emitted && t.pos == s.pos
  {
    hide Packet, SlotOf;
  }

  lemma {:induction false} PutAllGrows(s: Slice, pid: nat, ps: seq<seq<Byte>>)
    requires s.Valid() && pid in PIDS
    ensures |PutAll(s, pid, ps).stored| >= |s.stored|
    decreases |ps|
  {
    hide SlotOf;
    if ps != [] {
      PutAllGrows(Put(s, pid, ps[0]), pid, ps[1..]);
    }
  }

  /** The position counts what the buffer was offered, and the tables it was not, until the buffer is full. */
  ghost predicate PosRight(s: Slice, room: Room) {
    |s.stored| == 188 * |s.emitted| ==> s.pos == 188 * |s.emitted| + Shift(room)
  }

  /**
   The index after any run of non-empty frames: the first ten keyframes whose
   packets were stored whole, even when the buffer fills up in the middle, each
   with its byte range, moved by the tables that found no buffer.
   */
  lemma {:induction false} IndexIsExact(arg: MuxArg, room: Room, evs: seq<Event>)
    requires forall i :: 0 <= i < |evs| ==> evs[i].data != []
    ensures var s := Run(arg, room, evs);
            && s.index == Entries(KeyRanges(arg, room, evs), Shift(room), |s.stored|)
            && (evs != [] ==> PosRight(s, room))
    decreases |evs|
  {
    hide Packets, Run, FrameOf, Before, LastFrame, LastPackets, AddMeta, SendFrame, StoredPrefix, KeyRanges, SlotOf;
    hide Entries, PosRight, LastRange, EntryOf, Shift, Put;
    if evs == [] {
      EmptyRun(arg, room);
      NoRanges(arg, room, |Run(arg, room, evs).stored|);
    } else {
      var prev := evs[..|evs| - 1];
      var ev, s, s1, t := evs[|evs| - 1], Run(arg, room, prev), Before(arg, room, evs), Run(arg, room, evs);
      var key, f := ev.Video? && ev.key, LastFrame(arg, room, evs);
      IndexIsExact(arg, room, prev);
      IndexBefore(arg, room, evs);
      PushIndexes(arg, room, evs);
      EntriesCarry(arg, room, evs, |t.stored|);
      KeyRangesStep(arg, room, evs);
      if key && !NoRoom(s1, f) {
        EntriesSnoc(KeyRanges(arg, room, prev), LastRange(arg, room, evs), Shift(room), |t.stored|);
      } else {
        assert KeyRanges(arg, room, evs) == KeyRanges(arg, room, prev);
      }
    }
  }

  /** What one push of a run does to the index. */
  lemma PushIndexes(arg: MuxArg, room: Room, evs: seq<Event>)
    requires evs != [] && (|evs| > 1 ==> PosRight(Run(arg, room, evs[..|evs| - 1]), room))
    ensures var ev, s, t := evs[|evs| - 1], Run(arg, room, evs[..|evs| - 1]), Run(arg, room, evs);
            var s1, f, r := Before(arg, room, evs), LastFrame(arg, room, evs), LastRange(arg, room, evs);
            && PosRight(t, room) && |s.stored| <= |t.stored|
            && (|evs| > 1 && |s.stored| != 188 * |s.emitted| ==> t.stored == s.stored)
            && if !(ev.Video? && ev.key) || NoRoom(s1, f) then t.index == s.index
               else if ev.data == [] then t.index == AddMeta(s.index, KeyframeMeta(f.pts % 0x2_0000_0000, s1.pos, 0))
               else t.index == if r.offset + r.Length() <= |t.stored|
                 then AddMeta(s.index, EntryOf(r, Shift(room))) else s.index
  {
    hide Packet, Packets, Run, FrameOf, Before, LastFrame, LastPackets, AddMeta, SendFrame, StoredPrefix, SlotOf, Shift;
    var ev, s1, t := evs[|evs| - 1], Before(arg, room, evs), Run(arg, room, evs);
    var key, f := ev.Video? && ev.key, LastFrame(arg, room, evs);
    IndexBefore(arg, room, evs);
    RunStep(arg, room, evs);
    LastFrameData(arg, room, evs);
    var s2 := if ev.Video? then s1.(pcrDone := true) else s1;
    PrefixIgnoresIndex(s1, s2);
    RangeIsPackets(LastRange(arg, room, evs));
    if f.es == [] {
      EmptyKeyframe(s2, f, ev.Pid(), key);
    } else if s1.waits > 0 {
      SendRefused(s2, f, ev.Pid(), key);
    } else {
      SendIndexes(s2, f, ev.Pid(), key, Shift(room));
    }
  }

  lemma NoRanges(arg: MuxArg, room: Room, limit: nat)
    ensures KeyRanges(arg, room, []) == [] && Entries(KeyRanges(arg, room, []), Shift(room), limit) == []
  {}

  lemma EntriesSnoc(ranges: seq<KeyRange>, r: KeyRange, shift: nat, limit: nat)
    ensures Entries(ranges + [r], shift, limit) ==
            if r.offset + r.Length() <= limit then AddMeta(Entries(ranges, shift, limit), EntryOf(r, shift))
            else Entries(ranges, shift, limit)
  {
    hide AddMeta, KeyRange.Length;
    assert (ranges + [r])[..|ranges|] == ranges;
  }

  lemma KeyRangesStep(arg: MuxArg, room: Room, evs: seq<Event>)
    requires evs != []
    ensures var ev, s1 := evs[|evs| - 1], Before(arg, room, evs);
            KeyRanges(arg, room, evs) == KeyRanges(arg, room, evs[..|evs| - 1])
            + (if ev.Video? && ev.key && !NoRoom(s1, LastFrame(arg, room, evs))
               then [LastRange(arg, room, evs)] else [])
  {}

  /** The entries of earlier keyframes do not change while the last frame is stored. */
  lemma EntriesCarry(arg: MuxArg, room: Room, evs: seq<Event>, stored: nat)
    requires evs != []
    requires var s := Run(arg, room, evs[..|evs| - 1]);
             |s.stored| <= stored && (|evs| > 1 && |s.stored| != 188 * |s.emitted| ==> stored == |s.stored|)
    ensures var prev := evs[..|evs| - 1];
            Entries(KeyRanges(arg, room, prev), Shift(room), |Run(arg, room, prev).stored|)
            == Entries(KeyRanges(arg, room, prev), Shift(room), stored)
  {
    hide Packets, Run, FrameOf, Before, Shift;
    var prev := evs[..|evs| - 1];
    var s := Run(arg, room, prev);
    if |evs| == 1 {
      assert prev == [];
    } else if |s.stored| == 188 * |s.emitted| {
      RangesIn(arg, room, prev);
      EntriesStable(KeyRanges(arg, room, prev), Shift(room), |s.stored|, stored);
    }
  }

  lemma EmptyRun(arg: MuxArg, room: Room)
    ensures Run(arg, room, []) == EmptySlice(room) && KeyRanges(arg, room, []) == []
  {}

  lemma LastFrameData(arg: MuxArg, room: Room, evs: seq<Event>)
    requires evs != []
    ensures LastFrame(arg, room, evs).es == evs[|evs| - 1].data
  {}

  lemma IndexBefore(arg: MuxArg, room: Room, evs: seq<Event>)
    requires evs != [] && (|evs| > 1 ==> PosRight(Run(arg, room, evs[..|evs| - 1]), room))
    ensures var s, s1 := Run(arg, room, evs[..|evs| - 1]), Before(arg, room, evs);
            && StoredPrefix(s1) && PosRight(s1, room)
            && s1.index == s.index && |s.stored| <= |s1.stored|
            && (|evs| > 1 ==> s1 == s)
  {
    hide Packets, Run, PatPacket, PmtPacket, PmtArgOf, Put, StoredPrefix;
    var s := Run(arg, room, evs[..|evs| - 1]);
    RunKeepsPrefix(arg, room, evs[..|evs| - 1]);
    TablesKeepPrefix(arg, s);
    TablesOnce(arg, room, evs[..|evs| - 1]);
    TablesFacts(arg, room);
  }

  /** The bytes an index entry points at are that keyframe's packets, nothing else. */
  lemma RangeIsExact(arg: MuxArg, room: Room, evs: seq<Event>, i: nat)
    requires i < |KeyRanges(arg, room, evs)|
    ensures var r, s := KeyRanges(arg, room, evs)[i], Run(arg, room, evs);
            r.offset + r.Length() <= |s.stored| ==>
              s.stored[r.offset..r.offset + r.Length()] == Flatten(r.Packets())
  {
    hide Run, KeyRanges, Flatten, KeyRange.Packets, StoredPrefix, RangeIn;
    var r, s := KeyRanges(arg, room, evs)[i], Run(arg, room, evs);
    RangesIn(arg, room, evs);
    RunKeepsPrefix(arg, room, evs);
    if r.offset + r.Length() <= |s.stored| {
      StoredRange(s, r);
    }
  }

  /** Packets that lie wholly in the buffer are found there. */
  lemma StoredRange(s: Slice, r: KeyRange)
    requires StoredPrefix(s) && RangeIn(r, s.emitted) && r.offset + r.Length() <= |s.stored|
    ensures s.stored[r.offset..r.offset + r.Length()] == Flatten(r.Packets())
  {
    hide Flatten, KeyRange.Packets;
    var n, k, m := |s.stored| / 188, r.offset / 188, |r.Packets()|;
    var e := s.emitted;
    assert e[..n] == e[..k] + e[k..k + m] + e[k + m..n];
    FlattenAppend(e[..k] + e[k..k + m], e[k + m..n]);
    FlattenAppend(e[..k], e[k..k + m]);
    FlattenLength(e[..k]);
    FlattenLength(r.Packets());
  }

  // ---- the stored index

  /** An empty keyframe is indexed too: no bytes, at the current position. */
  lemma EmptyKeyframe(s: Slice, f: Frame, pid: nat, key: bool)
    requires s.Valid() && pid in {AUDIO_PID, VIDEO_PID} && f.es == []
    ensures SendFrame(s, f, pid, key)
         == if key then s.(index := AddMeta(s.index, KeyframeMeta(f.pts % 0x2_0000_0000, s.pos, 0))) else s
  {
    hide AddMeta;
  }

  /** The keyframes whose pushes added the entries of the index, entry by entry. */
  function Kept(arg: MuxArg, room: Room, evs: seq<Event>): seq<KeyRange>
    decreases |evs|
  {
    if evs == [] then []
    else
      var prev := evs[..|evs| - 1];
      Kept(arg, room, prev)
      + (if |Run(arg, room, evs).index| > |Run(arg, room, prev).index| then [LastRange(arg, room, evs)] else [])
  }

  /** An entry of a keyframe: no bytes, or those of the keyframe, stored wholly, moved by shift. */
  ghost predicate Names(r: KeyRange, m: KeyframeMeta, shift: nat, limit: nat) {
    && m.timestamp == r.frame.pts % 0x2_0000_0000 && m.length == r.Length()
    && (m.length > 0 ==> m == EntryOf(r, shift) && r.offset + r.Length() <= limit)
  }

  ghost predicate Indexed(index: seq<KeyframeMeta>, kept: seq<KeyRange>, ranges: seq<KeyRange>, shift: nat,
                          limit: nat)
  {
    |kept| == |index| && forall k :: 0 <= k < |index| ==> kept[k] in ranges && Names(kept[k], index[k], shift, limit)
  }

  lemma IndexedMore(index: seq<KeyframeMeta>, kept: seq<KeyRange>, ranges: seq<KeyRange>, more: seq<KeyRange>,
                    shift: nat, a: nat, b: nat)
    requires Indexed(index, kept, ranges, shift, a) && a <= b
    ensures Indexed(index, kept, ranges + more, shift, b)
  {
    hide KeyRange.Length, EntryOf;
  }

  lemma IndexedOne(index: seq<KeyframeMeta>, kept: seq<KeyRange>, ranges: seq<KeyRange>, m: KeyframeMeta, r: KeyRange,
                   shift: nat, limit: nat)
    requires Indexed(index, kept, ranges, shift, limit) && r in ranges && Names(r, m, shift, limit)
    ensures Indexed(index + [m], kept + [r], ranges, shift, limit)
  {
    hide Names;
  }

  lemma KeptStep(arg: MuxArg, room: Room, evs: seq<Event>)
    requires evs != []
    ensures var prev := evs[..|evs| - 1];
            Kept(arg, room, evs)
            == Kept(arg, room, prev)
               + if |Run(arg, room, evs).index| > |Run(arg, room, prev).index| then [LastRange(arg, room, evs)] else []
  {}

  lemma {:induction false} RunIndexed(arg: MuxArg, room: Room, evs: seq<Event>)
    ensures var s := Run(arg, room, evs);
            && (evs != [] ==> PosRight(s, room))
            && Indexed(s.index, Kept(arg, room, evs), KeyRanges(arg, room, evs), Shift(room), |s.stored|)
    decreases |evs|
  {
    hide Run, Before, LastFrame, KeyRanges, Kept, LastRange, KeyRange.Length, PosRight, Shift, Indexed, EntryOf;
    if evs == [] {
      EmptyRun(arg, room);
      NothingIndexed(arg, room);
    } else {
      var prev := evs[..|evs| - 1];
      var s, t := Run(arg, room, prev), Run(arg, room, evs);
      var r, f := LastRange(arg, room, evs), LastFrame(arg, room, evs);
      RunIndexed(arg, room, prev);
      PushIndexes(arg, room, evs);
      KeptStep(arg, room, evs);
      KeyRangesStep(arg, room, evs);
      var more := KeyRanges(arg, room, evs)[|KeyRanges(arg, room, prev)|..];
      assert KeyRanges(arg, room, evs) == KeyRanges(arg, room, prev) + more;
      IndexedMore(s.index, Kept(arg, room, prev), KeyRanges(arg, room, prev), more, Shift(room), |s.stored|,
                  |t.stored|);
      if |t.index| > |s.index| {
        var m := t.index[|s.index|];
        assert t.index == s.index + [m];
        LastNames(arg, room, evs, m);
        assert r in more;
        IndexedOne(s.index, Kept(arg, room, prev), KeyRanges(arg, room, evs), m, r, Shift(room), |t.stored|);
      } else {
        assert Kept(arg, room, prev) + [] == Kept(arg, room, prev);
        assert t.index == s.index;
      }
    }
  }

  lemma NothingIndexed(arg: MuxArg, room: Room)
    ensures Kept(arg, room, []) == [] && Indexed([], [], [], Shift(room), 0)
  {}

  /** The entry a push adds is that of its frame. */
  lemma LastNames(arg: MuxArg, room: Room, evs: seq<Event>, m: KeyframeMeta)
    requires evs != []
    requires var t, s1 := Run(arg, room, evs), Before(arg, room, evs);
             var f, r := LastFrame(arg, room, evs), LastRange(arg, room, evs);
             if evs[|evs| - 1].data == [] then m == KeyframeMeta(f.pts % 0x2_0000_0000, s1.pos, 0)
             else m == EntryOf(r, Shift(room)) && r.offset + r.Length() <= |t.stored|
    ensures Names(LastRange(arg, room, evs), m, Shift(room), |Run(arg, room, evs).stored|)
  {
    hide Run, Before, LastFrame, Shift;
    LastFrameData(arg, room, evs);
    RangeIsPackets(LastRange(arg, room, evs));
  }

  /**
   Every entry of the index of every run, whatever its frames: it carries the timestamp and the length of a keyframe
   whose packets are in the buffer, and lies as far behind them as tables were lost.
   */
  lemma EntryIsExact(arg: MuxArg, room: Room, evs: seq<Event>, k: nat)
    requires k < |Run(arg, room, evs).index|
    ensures |Kept(arg, room, evs)| == |Run(arg, room, evs).index|
    ensures var s, m, r := Run(arg, room, evs), Run(arg, room, evs).index[k], Kept(arg, room, evs)[k];
            && m.timestamp == r.frame.pts % 0x2_0000_0000 && m.length == r.Length()
            && (m.length > 0 ==>
                  && m.offset == r.offset + 188 * TablesLost(room) && r.offset + m.length <= |s.stored|
                  && s.stored[r.offset..r.offset + m.length] == Flatten(r.Packets()))
  {
    hide Run, KeyRanges, Kept, Flatten, KeyRange.Packets;
    RunIndexed(arg, room, evs);
    var r := Kept(arg, room, evs)[k];
    var i :| 0 <= i < |KeyRanges(arg, room, evs)| && KeyRanges(arg, room, evs)[i] == r;
    RangeIsExact(arg, room, evs, i);
  }

  lemma {:induction false} FlattenLength(ps: seq<seq<Byte>>)
    requires forall i :: 0 <= i < |ps| ==> |ps[i]| == TS_PACKET_LEN
    ensures |Flatten(ps)| == 188 * |ps|
    decreases |ps|
  {
    if ps != [] {
      FlattenLength(ps[1..]);
    }
  }
}
