/**
 A slice whose buffer comes after its tables: the pushes of PAT and PMT are not
 asked for their result, so they can be lost while the frame behind them is
 stored, and the keyframe index counts them all the same.
 */
module LateBuffer {
  import opened Bytes
  import opened MpegTs
  import opened TsDemux
  import opened Psi
  import opened TsMux
  import opened SliceRuns
  import opened StreamRuns

  /** The continuity counter of a packet. */
  function CountOf(p: seq<Byte>): nat
    requires |p| == TS_PACKET_LEN
  {
    p[3] as int % 16
  }

  predicate Marked(p: seq<Byte>, pid: nat, count: nat) {
    |p| == TS_PACKET_LEN && PidOf(p) == pid && CountOf(p) == count
  }

  lemma PacketMarked(f: Frame, pos: nat, pid: nat, count: nat)
    requires pos < |f.es| && pid < 0x2000 && count < 16
    ensures Marked(Packet(f, pos, pid, count), pid, count)
  {
    hide PacketRest, Adaptation;
    var p := Packet(f, pos, pid, count);
    HeaderParses(pos == 0, count, pid, Adaptation(f, pos), p);
  }

  lemma TableMarked(pid: nat, count: nat, section: seq<Byte>, n: nat)
    requires pid < 0x2000 && count < 16 && 4 <= n <= 5 + |section| <= 188
    ensures Marked(TablePacket(pid, count, section, n), pid, count)
  {
    var p := TablePacket(pid, count, section, n);
    assert p[..4] == TsHeader(true, count, pid, JUST_PAYLOAD);
    HeaderParses(true, count, pid, JUST_PAYLOAD, p);
  }

  lemma TablesMarked(arg: MuxArg, a: nat, b: nat)
    requires a < 16 && b < 16
    ensures Marked(PatPacket(a), PAT_PID, a) && Marked(PmtPacket(PmtArgOf(arg), b), PMT_PID, b)
  {
    hide PmtArgOf, Marked, PmtBody, PmtReported, Section, TablePacket;
    TableMarked(PAT_PID, a, Section(PAT_BODY), 21);
    var pmt := PmtArgOf(arg);
    ReportedAtLeast(pmt);
    TableMarked(PMT_PID, b, Section(PmtBody(pmt)), PmtReported(pmt));
  }

  // ---- packets close to each other differ

  /** The counter of a PID is that of each of its packets, and one more for every packet of the PID from there on. */
  ghost predicate Numbered(s: Slice)
    requires s.Valid()
  {
    forall i :: 0 <= i < |s.emitted| ==> NumberedAt(s, i)
  }

  ghost predicate NumberedAt(s: Slice, i: nat)
    requires s.Valid() && i < |s.emitted|
  {
    var p := s.emitted[i];
    && |p| == TS_PACKET_LEN && PidOf(p) in PIDS
    && (CountOf(p) + |Only(PidOf(p), s.emitted[i..])|) % 16 == Counter(s, PidOf(p))
  }

  lemma PutKeepsNumbers(s: Slice, pid: nat, p: seq<Byte>)
    requires s.Valid() && pid in PIDS && Numbered(s) && (s.waits > 0 ==> s.emitted == [])
    requires Marked(p, pid, Counter(s, pid))
    ensures Numbered(Put(s, pid, p))
  {
    hide PidOf, CountOf;
    var t := Put(s, pid, p);
    if s.waits == 0 {
      forall i | 0 <= i < |t.emitted|
        ensures NumberedAt(t, i)
      {
        OneMore(s, pid, p, i);
      }
    }
  }

  lemma OneMore(s: Slice, pid: nat, p: seq<Byte>, i: nat)
    requires s.Valid() && pid in PIDS && Numbered(s) && s.waits == 0 && i <= |s.emitted|
    requires Marked(p, pid, Counter(s, pid))
    ensures NumberedAt(Put(s, pid, p), i)
  {
    hide PidOf, CountOf, Only, SlotOf, PIDS;
    var t := Put(s, pid, p);
    OnlyOne(pid, p);
    if i == |s.emitted| {
      assert t.emitted[i..] == [p];
    } else {
      assert NumberedAt(s, i);
      var q := PidOf(s.emitted[i]);
      assert t.emitted[i..] == s.emitted[i..] + [p];
      OnlyAppend(q, s.emitted[i..], [p]);
      OnlyOne(q, p);
      var n := |Only(q, s.emitted[i..])|;
      CounterAdds(CountOf(s.emitted[i]) + n, 1);
      SlotsApart(q, pid);
    }
  }

  lemma SlotsApart(p: nat, q: nat)
    requires p in PIDS && q in PIDS
    ensures SlotOf(p) == SlotOf(q) <==> p == q
  {}

  lemma {:induction false} PutAllKeepsNumbers(s: Slice, f: Frame, at: nat, pid: nat)
    requires s.Valid() && pid in {AUDIO_PID, VIDEO_PID} && Numbered(s) && s.waits == 0 && at <= |f.es|
    ensures Numbered(PutAll(s, pid, Packets(f, at, pid, Counter(s, pid))))
    decreases |f.es| - at
  {
    hide Packet, ReadLen, PidOf, CountOf, Only, Numbered, Put, Marked;
    if at < |f.es| {
      var c := Counter(s, pid);
      var ps := Packets(f, at, pid, c);
      PacketMarked(f, at, pid, c);
      PutKeepsNumbers(s, pid, ps[0]);
      PutFacts(s, pid, ps[0], s.pos);
      assert ps[1..] == Packets(f, at + ReadLen(f, at), pid, (c + 1) % 16);
      PutAllKeepsNumbers(Put(s, pid, ps[0]), f, at + ReadLen(f, at), pid);
    }
  }

  lemma SameNumbers(s: Slice, t: Slice)
    requires s.Valid() && t.Valid() && Numbered(s) && t.emitted == s.emitted && t.counters == s.counters
    ensures Numbered(t)
  {
    hide PidOf, CountOf, Only;
    assert forall i :: 0 <= i < |t.emitted| ==> NumberedAt(s, i) ==> NumberedAt(t, i);
  }

  lemma SendKeepsNumbers(s: Slice, f: Frame, pid: nat, key: bool)
    requires s.Valid() && pid in {AUDIO_PID, VIDEO_PID} && Numbered(s) && (s.waits > 0 ==> s.emitted == [])
    ensures Numbered(SendFrame(s, f, pid, key))
  {
    hide Packet, ReadLen, PidOf, CountOf, Only, Numbered, Put, PutAll, Marked, SlotOf;
    var c := Counter(s, pid);
    if NoRoom(s, f) {
      PacketMarked(f, 0, pid, c);
      PutKeepsNumbers(s, pid, Packet(f, 0, pid, c));
    } else if f.es == [] {
      EmptyKeyframe(s, f, pid, key);
      SameNumbers(s, SendFrame(s, f, pid, key));
    } else {
      PutAllKeepsNumbers(s, f, 0, pid);
      SameNumbers(PutAll(s, pid, Packets(f, 0, pid, c)), SendFrame(s, f, pid, key));
    }
  }

  lemma TablesKeepNumbers(arg: MuxArg, s: Slice)
    requires s.Valid() && Numbered(s) && (s.waits > 0 ==> s.emitted == [])
    ensures Numbered(WriteTables(arg, s))
  {
    hide PatPacket, PmtPacket, PmtArgOf, Numbered, Marked, SlotOf;
    if !s.tables {
      var a := Counter(s, PAT_PID);
      var s1 := Put(s, PAT_PID, PatPacket(a));
      var b := Counter(s1, PMT_PID);
      TablesMarked(arg, a, b);
      PutKeepsNumbers(s, PAT_PID, PatPacket(a));
      PutKeepsNumbers(s1, PMT_PID, PmtPacket(PmtArgOf(arg), b));
      SameNumbers(Put(s1, PMT_PID, PmtPacket(PmtArgOf(arg), b)), WriteTables(arg, s));
    }
  }

  lemma {:induction false} RunNumbered(arg: MuxArg, room: Room, evs: seq<Event>)
    ensures Numbered(Run(arg, room, evs))
    decreases |evs|
  {
    hide Numbered, WriteTables, SendFrame, StoredPrefix;
    if evs == [] {
      NothingNumbered(room);
    } else {
      var prev := evs[..|evs| - 1];
      var ev, s := evs[|evs| - 1], Run(arg, room, prev);
      RunNumbered(arg, room, prev);
      RunKeepsPrefix(arg, room, prev);
      TablesKeepPrefix(arg, s);
      NoneWhileWaiting(s);
      NoneWhileWaiting(WriteTables(arg, s));
      TablesKeepNumbers(arg, s);
      var s1 := WriteTables(arg, s);
      var s2 := if ev.Video? then s1.(pcrDone := true) else s1;
      SameNumbers(s1, s2);
      SendKeepsNumbers(s2, FrameOf(arg, s1, ev), ev.Pid(), ev.Video? && ev.key);
    }
  }

  lemma NothingNumbered(room: Room)
    ensures Numbered(EmptySlice(room))
  {}

  lemma NoneWhileWaiting(s: Slice)
    requires StoredPrefix(s)
    ensures s.waits > 0 ==> s.emitted == [] && s.stored == []
  {}

  /** A packet is none of the next fifteen. */
  lemma PacketsDiffer(arg: MuxArg, room: Room, evs: seq<Event>, i: nat, j: nat)
    requires i < j < i + 16 && j < |Run(arg, room, evs).emitted|
    ensures Run(arg, room, evs).emitted[i] != Run(arg, room, evs).emitted[j]
  {
    hide Run, PidOf, CountOf, Only, PIDS, SlotOf;
    var s := Run(arg, room, evs);
    RunNumbered(arg, room, evs);
    var e := s.emitted;
    if e[i] == e[j] {
      assert NumberedAt(s, i) && NumberedAt(s, j);
      var q := PidOf(e[i]);
      assert e[i..] == e[i..j] + e[j..];
      OnlyAppend(q, e[i..j], e[j..]);
      OnlyAtMost(q, e[i..j]);
      assert e[i..j][0] == e[i];
      OnlyFirst(q, e[i..j]);
      var m, n := |Only(q, e[i..j])|, CountOf(e[j]) + |Only(q, e[j..])|;
      NotACircle(n, m);
    }
  }

  lemma NotACircle(n: nat, m: nat)
    requires 0 < m < 16
    ensures (n + m) % 16 != n % 16
  {}

  lemma {:induction false} OnlyAtMost(pid: nat, ps: seq<seq<Byte>>)
    ensures |Only(pid, ps)| <= |ps|
  {
    hide PidOf;
    if ps != [] {
      OnlyAtMost(pid, ps[1..]);
    }
  }

  lemma OnlyFirst(pid: nat, ps: seq<seq<Byte>>)
    requires ps != [] && |ps[0]| == TS_PACKET_LEN && PidOf(ps[0]) == pid
    ensures |Only(pid, ps)| >= 1
  {}

  // ---- the index

  /** The bytes the entry names are those of the keyframe it was written for. */
  ghost predicate Exact(arg: MuxArg, room: Room, evs: seq<Event>, k: nat)
    requires k < |Run(arg, room, evs).index| == |Kept(arg, room, evs)|
  {
    var s, m, r := Run(arg, room, evs), Run(arg, room, evs).index[k], Kept(arg, room, evs)[k];
    m.offset + m.length <= |s.stored| && s.stored[m.offset..m.offset + m.length] == Flatten(r.Packets())
  }

  /** An entry with a length names its keyframe exactly when the first push of the slice found a buffer. */
  lemma EntryExactly(arg: MuxArg, room: Room, evs: seq<Event>, k: nat)
    requires k < |Run(arg, room, evs).index| && Run(arg, room, evs).index[k].length > 0
    ensures |Kept(arg, room, evs)| == |Run(arg, room, evs).index|
    ensures Exact(arg, room, evs, k) <==> room.waits == 0
  {
    hide Run, KeyRanges, Kept, Flatten, KeyRange.Packets;
    EntryIsExact(arg, room, evs, k);
    var s, r := Run(arg, room, evs), Kept(arg, room, evs)[k];
    var d := TablesLost(room);
    RunIndexed(arg, room, evs);
    RangesIn(arg, room, evs);
    assert r in KeyRanges(arg, room, evs) && r.offset % 188 == 0;
    if room.waits > 0 && Exact(arg, room, evs, k) {
      MovedDiffers(arg, room, evs, r.offset, s.index[k].length, d);
    }
  }

  /** Bytes of a whole number of stored packets are not found again one or two packets further on. */
  lemma MovedDiffers(arg: MuxArg, room: Room, evs: seq<Event>, at: nat, len: nat, d: nat)
    requires 0 < d < 16 && at % 188 == 0 && len >= 188 && at + 188 * d + len <= |Run(arg, room, evs).stored|
    ensures var s := Run(arg, room, evs).stored; s[at..at + len] != s[at + 188 * d..at + 188 * d + len]
  {
    hide Run;
    var s := Run(arg, room, evs);
    var i := at / 188;
    RunKeepsPrefix(arg, room, evs);
    PacketsDiffer(arg, room, evs, i, i + d);
    StoredPacket(s, i);
    StoredPacket(s, i + d);
    assert s.stored[at..at + len][..188] == s.stored[at..at + 188];
    var b := at + 188 * d;
    assert s.stored[b..b + len][..188] == s.stored[b..b + 188];
  }

  /** Packet i of the buffer. */
  lemma StoredPacket(s: Slice, i: nat)
    requires StoredPrefix(s) && 188 * i + 188 <= |s.stored|
    ensures i < |s.emitted| && s.stored[188 * i..188 * i + 188] == s.emitted[i]
  {
    hide Flatten;
    var n := |s.stored| / 188;
    var e := s.emitted[..n];
    assert e == e[..i] + [e[i]] + e[i + 1..];
    FlattenAppend(e[..i] + [e[i]], e[i + 1..]);
    FlattenAppend(e[..i], [e[i]]);
    FlattenSingle(e[i]);
    FlattenLength(e[..i]);
  }

  /** Every entry of the index is exact if and only if the PAT found a buffer, or no entry names any bytes. */
  lemma IndexExactly(arg: MuxArg, room: Room, evs: seq<Event>)
    ensures |Kept(arg, room, evs)| == |Run(arg, room, evs).index|
    ensures var index := Run(arg, room, evs).index;
            (forall k :: 0 <= k < |index| && index[k].length > 0 ==> Exact(arg, room, evs, k)) <==>
              room.waits == 0 || forall k :: 0 <= k < |index| ==> index[k].length == 0
  {
    hide Run, Kept, Exact;
    var index := Run(arg, room, evs).index;
    KeptLength(arg, room, evs);
    forall k | 0 <= k < |index| && index[k].length > 0
      ensures Exact(arg, room, evs, k) <==> room.waits == 0
    {
      EntryExactly(arg, room, evs, k);
    }
  }

  lemma KeptLength(arg: MuxArg, room: Room, evs: seq<Event>)
    ensures |Kept(arg, room, evs)| == |Run(arg, room, evs).index|
  {
    hide Run, Kept, KeyRanges;
    RunIndexed(arg, room, evs);
  }

  // ---- the stored bytes

  /**
   The stored bytes are a prefix of those sent if and only if the first push found a buffer, or nothing is stored: once
   the PAT is lost, the first packet stored is another one.
   */
  lemma PrefixExactly(arg: MuxArg, room: Room, evs: seq<Event>)
    ensures var s := Run(arg, room, evs);
            s.stored <= Flatten(s.Sent()) <==> room.waits == 0 || s.stored == []
  {
    hide Run, Flatten, StoredPrefix, PidOf, PatPacket, Only;
    var s := Run(arg, room, evs);
    RunKeepsPrefix(arg, room, evs);
    RefusedFirst(arg, room, evs);
    if room.waits == 0 {
      WholePrefix(s);
    } else if s.stored != [] {
      FirstStored(s);
      EmittedIsNotPat(arg, room, evs);
      NotPrefix(s);
    }
  }

  lemma NotPrefix(s: Slice)
    requires StoredPrefix(s) && |s.stored| >= 188 && Only(PAT_PID, s.emitted) == []
    requires s.refused != [] && |s.refused[0]| == TS_PACKET_LEN && PidOf(s.refused[0]) == PAT_PID
    ensures !(s.stored <= Flatten(s.Sent()))
  {
    hide Flatten, PidOf, Only;
    StoredPacket(s, 0);
    PatIsFirst(s.Sent());
    if s.stored <= Flatten(s.Sent()) {
      assert s.stored[..188] == Flatten(s.Sent())[..188] == s.refused[0];
      OnlyFirst(PAT_PID, s.emitted);
    }
  }

  lemma FirstStored(s: Slice)
    requires StoredPrefix(s) && s.stored != []
    ensures |s.stored| >= 188
  {}

  lemma WholePrefix(s: Slice)
    requires StoredPrefix(s) && s.refused == []
    ensures s.stored <= Flatten(s.Sent())
  {
    hide Flatten;
    var n := |s.stored| / 188;
    assert s.Sent() == s.emitted[..n] + s.emitted[n..];
    FlattenAppend(s.emitted[..n], s.emitted[n..]);
  }

  lemma PatIsFirst(ps: seq<seq<Byte>>)
    requires ps != [] && |ps[0]| == TS_PACKET_LEN
    ensures |Flatten(ps)| >= 188 && Flatten(ps)[..188] == ps[0]
  {}

  /** With a late buffer the PAT is the first packet that was lost. */
  lemma {:induction false} RefusedFirst(arg: MuxArg, room: Room, evs: seq<Event>)
    ensures var s := Run(arg, room, evs);
            && (room.waits == 0 ==> s.refused == [] && s.waits == 0)
            && (room.waits > 0 && evs != [] ==> s.refused != [] && s.refused[0] == PatPacket(0))
            && (evs == [] ==> s.stored == [])
            && |PatPacket(0)| == TS_PACKET_LEN && PidOf(PatPacket(0)) == PAT_PID
    decreases |evs|
  {
    hide Run, PatPacket, PmtPacket, PmtArgOf, PidOf, LastPackets, LastRefused, Before;
    TablePids(arg);
    TableFirst(arg);
    if evs == [] {
      EmptyRun(arg, room);
    } else {
      RefusedFirst(arg, room, evs[..|evs| - 1]);
      BeforeFacts(arg, room, evs);
      RunEmits(arg, room, evs);
      NoneRefused(arg, room, evs);
      if |evs| == 1 {
        assert evs[..0] == [];
        EmptyRun(arg, room);
      }
    }
  }

  lemma TableFirst(arg: MuxArg)
    ensures Tables(arg)[0] == PatPacket(0)
  {}

  lemma NoneRefused(arg: MuxArg, room: Room, evs: seq<Event>)
    requires evs != []
    ensures Before(arg, room, evs).waits == 0 ==> LastRefused(arg, room, evs) == []
  {}

  /** With a late buffer none of the packets it is offered is a PAT. */
  lemma {:induction false} EmittedIsNotPat(arg: MuxArg, room: Room, evs: seq<Event>)
    requires room.waits > 0
    ensures Only(PAT_PID, Run(arg, room, evs).emitted) == []
    decreases |evs|
  {
    hide Run, PatPacket, PmtPacket, PmtArgOf, PidOf, LastPackets, LastRefused, Before, Only;
    OnlyEmpty(PAT_PID);
    if evs == [] {
      EmptyRun(arg, room);
    } else {
      EmittedIsNotPat(arg, room, evs[..|evs| - 1]);
      BeforeFacts(arg, room, evs);
      RunEmits(arg, room, evs);
      LaterTables(arg, TablesLost(room));
      OnlyLast(arg, room, evs, PAT_PID);
      OnlyAppend(PAT_PID, Before(arg, room, evs).emitted, LastPackets(arg, room, evs));
    }
  }

  lemma LaterTables(arg: MuxArg, k: nat)
    requires 1 <= k <= 2
    ensures Only(PAT_PID, Tables(arg)[k..]) == []
  {
    hide PatPacket, PmtPacket, PmtArgOf, PidOf;
    TablePids(arg);
    OnlyOne(PAT_PID, PmtPacket(PmtArgOf(arg), 0));
    OnlyEmpty(PAT_PID);
    assert Tables(arg)[1..] == [PmtPacket(PmtArgOf(arg), 0)] && Tables(arg)[2..] == [];
  }

  // ---- what the producer sees

  /**
   A push that succeeds with a frame has found a buffer; one that does not leaves the buffer empty for the next slice.
   */
  lemma ResultTellsBuffer(arg: MuxArg, room: Room, evs: seq<Event>)
    requires evs != [] && evs[|evs| - 1].data != []
    ensures var s, t := Run(arg, room, evs[..|evs| - 1]), Run(arg, room, evs);
            match MuxResult(arg, s, evs[|evs| - 1])
            case 0 => t.waits == 0
            case _ => t.stored == [] && t.index == s.index
  {
    hide Packet, Packets, PatPacket, PmtPacket, PmtArgOf, StoredPrefix, Put, PutAll, SlotOf;
    var prev, ev := evs[..|evs| - 1], evs[|evs| - 1];
    var s1 := Before(arg, room, evs);
    RunKeepsPrefix(arg, room, prev);
    TablesKeepPrefix(arg, Run(arg, room, prev));
    NoneWhileWaiting(s1);
    RunStep(arg, room, evs);
    LastFrameData(arg, room, evs);
    var s2 := if ev.Video? then s1.(pcrDone := true) else s1;
    SendFacts(s2, LastFrame(arg, room, evs), ev.Pid(), ev.Video? && ev.key);
    TablesIndex(arg, Run(arg, room, prev));
    if s1.waits > 0 {
      SendRefused(s2, LastFrame(arg, room, evs), ev.Pid(), ev.Video? && ev.key);
    }
  }

  lemma TablesIndex(arg: MuxArg, s: Slice)
    requires s.Valid()
    ensures WriteTables(arg, s).index == s.index
  {
    hide PatPacket, PmtPacket, PmtArgOf, SlotOf;
  }

  /**
   A run that loses its tables: all slots are taken when a first keyframe is pushed, one is freed between the PMT and
   the frame, or between PAT and PMT. The push succeeds, the frame is stored behind whatever table is left, and is
   indexed behind two.
   */
  lemma TablesLostRun(arg: MuxArg, room: Room, data: seq<Byte>, ms: int)
    requires 1 <= room.waits <= 2 && data != []
    requires var f := Frame(data, 0xE0, ms * 90, true, arg.video);
             188 * (2 - room.waits) + 188 * |Packets(f, 0, VIDEO_PID, 0)| <= room.cap
    ensures var f := Frame(data, 0xE0, ms * 90, true, arg.video);
            var ps, s := Packets(f, 0, VIDEO_PID, 0), Run(arg, room, [Video(data, ms, true)]);
            && MuxResult(arg, EmptySlice(room), Video(data, ms, true)) == 0
            && s.refused == Tables(arg)[..room.waits]
            && s.stored == Flatten(Tables(arg)[room.waits..]) + Flatten(ps)
            && s.index == [KeyframeMeta(f.pts % 0x2_0000_0000, 376, 188 * |ps|)]
  {
    hide Run, Before, LastFrame, Packet, Packets, PatPacket, PmtPacket, PmtArgOf, Flatten, WriteTables, AddMeta, Tables;
    var evs := [Video(data, ms, true)];
    var s, s1, f := Run(arg, room, evs), Before(arg, room, evs), LastFrame(arg, room, evs);
    assert evs[..0] == [];
    EmptyRun(arg, room);
    TwoTables(arg);
    FirstFrame(arg, room, evs);
    BeforeFacts(arg, room, evs);
    RunEmits(arg, room, evs);
    RunKeepsPrefix(arg, room, evs);
    PushIndexes(arg, room, evs);
    assert s.emitted[..|s.emitted|] == s.emitted;
    FlattenAppend(Tables(arg)[room.waits..], LastPackets(arg, room, evs));
    FlattenLength(s.emitted);
    RangeIsPackets(LastRange(arg, room, evs));
    OneEntry(LastRange(arg, room, evs), Shift(room));
  }

  lemma OneEntry(r: KeyRange, shift: nat)
    ensures AddMeta([], EntryOf(r, shift)) == [EntryOf(r, shift)]
  {}

  lemma FirstFrame(arg: MuxArg, room: Room, evs: seq<Event>)
    requires |evs| == 1 && evs[0].Video?
    ensures LastFrame(arg, room, evs) == Frame(evs[0].data, 0xE0, evs[0].ms * 90, true, arg.video)
    ensures Before(arg, room, evs) == WriteTables(arg, EmptySlice(room))
    ensures Counter(Before(arg, room, evs), VIDEO_PID) == 0
  {
    hide WriteTables, Run, Tables, Flatten, PatPacket;
    assert evs[..0] == [];
    EmptyRun(arg, room);
    TablesFacts(arg, room);
  }
}
