/**
 What every call of the producer adds to its log, told from the calls and the
 log alone: when a slice ends, when one starts, and which frames are in it.
 */
module SliceLog {
  import opened TsMuxUploader
  import opened SliceCuts

  // ---- what the calls so far say

  function Paused(calls: seq<Call>): bool {
    calls != [] &&
    match calls[|calls| - 1]
    case PauseUpload => true
    case ResumeUpload => false
    case _ => Paused(calls[..|calls| - 1])
  }

  /** A keyframe with readable parameter sets came since the last pause or flush. */
  function Counted(calls: seq<Call>): bool {
    calls != [] &&
    var before := calls[..|calls| - 1];
    match calls[|calls| - 1]
    case PauseUpload => false
    case FlushUploader => false
    case Video(_, key, _, sps, _) => Counted(before) || (!Paused(before) && key && sps != Unreadable)
    case _ => Counted(before)
  }

  /** Whether a call gets as far as the muxer, if its timestamp lets it. */
  predicate Passes(calls: seq<Call>, c: Call) {
    match c
    case Video(_, key, _, sps, _) => !Paused(calls) && (if key then sps != Unreadable else Counted(calls))
    case Audio(_, _) => !Paused(calls) && Counted(calls)
    case _ => false
  }

  /** The last timestamp of a stream that was muxed, with success or not; 0 before the first. */
  function Tried(calls: seq<Call>, video: bool): int
    decreases |calls|, 0
  {
    if calls == [] then 0
    else
      var before, c := calls[..|calls| - 1], calls[|calls| - 1];
      if Muxes(before, c) && c.Video? == video then c.ts else Tried(before, video)
  }

  /** A frame is muxed when it passes and is later than the one before it in its stream. */
  predicate Muxes(calls: seq<Call>, c: Call)
    decreases |calls|, 1
  {
    Passes(calls, c) && (Tried(calls, c.Video?) == 0 || c.ts > Tried(calls, c.Video?))
  }

  /** The slice length in force. */
  function Limit(calls: seq<Call>): int {
    if calls == [] then 4000
    else if calls[|calls| - 1].Configure? then calls[|calls| - 1].tsDuration
    else Limit(calls[..|calls| - 1])
  }

  // ---- what a call writes

  /** A slice under way is cut before a keyframe: it is too long, its parameter sets changed, or it is asked for. */
  predicate CutDue(calls: seq<Call>, log: seq<Event>, c: Call) {
    && Open(log) && c.Video? && c.key && c.sps != Unreadable
    && (c.sps == Changed || c.seg || (Slice(log) != [] && Slice(log)[0].Frame?
                                      && c.ts - Slice(log)[0].ts > Limit(calls)))
  }

  /** The end of the slice the log is in. */
  function EndNow(log: seq<Event>): seq<Event> {
    SliceOfFrames(log);
    [EndOf(Slice(log))]
  }

  /** What a muxed frame writes: reports and the frame, or an end if there was no memory for it. */
  function Muxing(log: seq<Event>, c: Call): seq<Event>
    requires c.Video? || c.Audio?
  {
    if c.mux == Stored then
      (if c.Video? && (c.seg || (c.key && c.sps == Changed)) then [Seg] else [])
      + (if Open(log) then [] else [Start])
      + [Frame(c.Video?, c.Video? && c.key, c.ts)]
    else if c.mux == NoMemory && Open(log) then EndNow(log)
    else []
  }

  function Written(calls: seq<Call>, log: seq<Event>, c: Call): seq<Event> {
    match c
    case PauseUpload => if Open(log) then EndNow(log) else []
    case FlushUploader => if Open(log) then EndNow(log) else []
    case ResumeUpload => []
    case Configure(_) => []
    case _ =>
      var cut := if CutDue(calls, log, c) then EndNow(log) else [];
      cut + if Muxes(calls, c) then Muxing(log + cut, c) else []
  }

  // ---- the state is what the calls say

  ghost predicate Agrees(s: State, calls: seq<Call>) {
    && s.paused == Paused(calls) && (s.keyFrames > 0 <==> Counted(calls))
    && s.prevVideo == Tried(calls, true) && s.prevAudio == Tried(calls, false) && s.tsDuration == Limit(calls)
  }

  lemma CallsSnoc(calls: seq<Call>, c: Call)
    ensures var all := calls + [c];
            && Paused(all) == (c.PauseUpload? || (!c.ResumeUpload? && Paused(calls)))
            && Counted(all) == (!c.PauseUpload? && !c.FlushUploader?
                                && (Counted(calls) || (c.Video? && !Paused(calls) && c.key && c.sps != Unreadable)))
            && Tried(all, true) == (if Muxes(calls, c) && c.Video? then c.ts else Tried(calls, true))
            && Tried(all, false) == (if Muxes(calls, c) && !c.Video? then c.ts else Tried(calls, false))
            && Limit(all) == if c.Configure? then c.tsDuration else Limit(calls)
  {
    assert (calls + [c])[..|calls|] == calls;
  }

  lemma {:induction false} RunSnoc(s: State, calls: seq<Call>, c: Call)
    ensures Run(s, calls + [c]) == Step(Run(s, calls), c)
    decreases |calls|
  {
    hide Step;
    if calls == [] {
      assert [c][1..] == [] && calls + [c] == [c];
    } else {
      assert (calls + [c])[1..] == calls[1..] + [c];
      RunSnoc(Step(s, calls[0]), calls[1..], c);
    }
  }

  lemma StepAgrees(s: State, calls: seq<Call>, c: Call)
    requires Agrees(s, calls)
    ensures Agrees(Step(s, c), calls + [c])
  {
    hide Report, Emitted, Cuts, SwitchTs, Paused, Counted, Tried, Limit;
    CallsSnoc(calls, c);
    match c
    case Video(ts, key, seg, sps, mux) =>
      SwitchFields(s.(keyFrames := 0, frames := 0));
      VideoAgrees(s, calls, c);
    case Audio(ts, mux) => AudioAgrees(s, calls, c);
    case PauseUpload => SwitchKeepsPrev(s.(paused := true, keyFrames := 0, frames := 0));
    case FlushUploader => SwitchKeepsPrev(s);
    case _ =>
  }

  lemma SwitchKeepsPrev(s: State)
    ensures var t := SwitchTs(s);
            && t.keyFrames == s.keyFrames && t.paused == s.paused && t.tsDuration == s.tsDuration
            && t.prevVideo == s.prevVideo && t.prevAudio == s.prevAudio
  {}

  lemma PushAgrees(s: State, video: bool, key: bool, ts: int, seg: bool, mux: Muxed)
    ensures var (s1, ret) := Push(s, video, key, ts, seg, mux);
            var t := TsMuxUploader.Settle(s1, ret);
            && t.keyFrames == s.keyFrames && t.paused == s.paused && t.tsDuration == s.tsDuration
            && t.prevVideo == (if video && Advances(s, video, ts) then ts else s.prevVideo)
            && t.prevAudio == (if !video && Advances(s, video, ts) then ts else s.prevAudio)
  {}

  lemma VideoAgrees(s: State, calls: seq<Call>, c: Call)
    requires Agrees(s, calls) && c.Video?
    ensures var t := Step(s, c);
            && t.paused == s.paused && t.tsDuration == s.tsDuration && t.prevAudio == s.prevAudio
            && (t.keyFrames > 0 <==> Counted(calls) || (!Paused(calls) && c.key && c.sps != Unreadable))
            && t.prevVideo == if Muxes(calls, c) then c.ts else Tried(calls, true)
  {
    hide Push, TsMuxUploader.Settle, Cuts, SwitchTs, Paused, Counted, Tried, Limit;
    if Reaches(s, c) {
      var s1 := if c.key then CheckSwitch(s, c.ts, c.seg, c.sps) else s;
      SwitchKeepsPrev(s.(keyFrames := 0, frames := 0));
      PushAgrees(s1, true, c.key, c.ts, c.seg || (c.key && c.sps == Changed), c.mux);
    }
  }

  lemma AudioAgrees(s: State, calls: seq<Call>, c: Call)
    requires Agrees(s, calls) && c.Audio?
    ensures var t := Step(s, c);
            && t.paused == s.paused && t.tsDuration == s.tsDuration && t.keyFrames == s.keyFrames
            && t.prevVideo == s.prevVideo
            && t.prevAudio == if Muxes(calls, c) then c.ts else Tried(calls, false)
  {
    hide Push, TsMuxUploader.Settle, Paused, Counted, Tried, Limit;
    PushAgrees(s, false, false, c.ts, false, c.mux);
  }

  // ---- the log

  /** Ending the slice of the state is ending that of the log. */
  lemma SwitchWrites(s: State)
    requires LogInv(s)
    ensures SwitchTs(s).log == s.log + if Open(s.log) then EndNow(s.log) else []
  {
    hide WellCut, Open, Slice;
  }

  lemma PushWrites(s: State, video: bool, key: bool, ts: int, seg: bool, mux: Muxed)
    requires LogInv(s)
    ensures var (s1, ret) := Push(s, video, key, ts, seg, mux);
            TsMuxUploader.Settle(s1, ret).log == s.log
              + if !Advances(s, video, ts) then []
                else if mux == Stored then
                  (if seg then [Seg] else []) + (if Open(s.log) then [] else [Start]) + [Frame(video, key, ts)]
                else if mux == NoMemory && Open(s.log) then EndNow(s.log) else []
  {
    hide WellCut, Open, Slice, SwitchTs;
    var s1 := if video then s.(prevVideo := ts) else s.(prevAudio := ts);
    SwitchSame(s, s1);
    SwitchWrites(s);
    assert s.log + [] == s.log;
  }

  lemma SwitchSame(s: State, t: State)
    requires t.log == s.log && t.first == s.first && t.last == s.last && t.firstVideo == s.firstVideo
    requires t.lastVideo == s.lastVideo && t.firstAudio == s.firstAudio && t.lastAudio == s.lastAudio
    ensures SwitchTs(t).log == SwitchTs(s).log
  {}

  /** The cut of the state is the cut of the log. */
  lemma CheckWrites(s: State, calls: seq<Call>, c: Call)
    requires Inv(s) && Agrees(s, calls) && c.Video? && c.key && c.sps != Unreadable
    ensures CheckSwitch(s, c.ts, c.seg, c.sps).log == s.log + if CutDue(calls, s.log, c) then EndNow(s.log) else []
  {
    hide WellCut, Open, Slice, SwitchTs, Paused, Counted, Tried, Limit;
    var s0 := s.(keyFrames := 0, frames := 0);
    SwitchWrites(s0);
    if Open(s.log) {
      assert Slice(s.log)[0].Frame? && s.first == Slice(s.log)[0].ts;
    }
    assert s.log + [] == s.log;
  }

  lemma StepWrites(s: State, calls: seq<Call>, c: Call)
    requires Inv(s) && Agrees(s, calls)
    ensures Step(s, c).log == s.log + Written(calls, s.log, c)
  {
    hide WellCut, Open, Slice, SwitchTs, Push, TsMuxUploader.Settle, Cuts, CutDue, CheckSwitch, Paused, Counted,
      Tried, Limit, EndNow;
    assert s.log + [] == s.log;
    match c
    case Video(ts, key, seg, sps, mux) => VideoWrites(s, calls, c);
    case Audio(ts, mux) =>
      NoCut(calls, s.log, c);
      if Passes(calls, c) {
        PushWrites(s, false, false, ts, false, mux);
      }
      assert [] + Muxing(s.log, c) == Muxing(s.log, c);
    case PauseUpload => SwitchWrites(s.(paused := true, keyFrames := 0, frames := 0));
    case FlushUploader => SwitchWrites(s);
    case _ =>
  }

  lemma NoCut(calls: seq<Call>, log: seq<Event>, c: Call)
    ensures c.Audio? || (c.Video? && (!c.key || c.sps == Unreadable)) ==> !CutDue(calls, log, c)
  {}

  lemma VideoWrites(s: State, calls: seq<Call>, c: Call)
    requires Inv(s) && Agrees(s, calls) && c.Video?
    ensures Step(s, c).log == s.log + Written(calls, s.log, c)
  {
    hide Inv, Step, Written, Reaches, Agrees;
    if !Reaches(s, c) {
      ClosedWhenPaused(s, calls, c);
      assert s.log + [] == s.log;
    } else if c.key {
      KeyWrites(s, calls, c);
    } else {
      PlainWrites(s, calls, c);
    }
  }

  lemma KeyWrites(s: State, calls: seq<Call>, c: Call)
    requires Inv(s) && Agrees(s, calls) && c.Video? && c.key && Reaches(s, c)
    ensures Step(s, c).log == s.log + Written(calls, s.log, c)
  {
    hide WellCut, Open, Slice, SwitchTs, Push, TsMuxUploader.Settle, Cuts, CutDue, Paused, Counted, Tried, Limit,
      EndNow;
    hide KeyFirst, Times, CheckSwitch, Sorted;
    CheckWrites(s, calls, c);
    CheckSwitchKeeps(s, c.ts, c.seg, c.sps);
    CutPrev(s, c.ts, c.seg, c.sps);
    var s1 := CheckSwitch(s, c.ts, c.seg, c.sps);
    PushWrites(s1, true, true, c.ts, c.seg || c.sps == Changed, c.mux);
    var cut := if CutDue(calls, s.log, c) then EndNow(s.log) else [];
    var more := if Muxes(calls, c) then Muxing(s.log + cut, c) else [];
    assert s.log + cut + more == s.log + (cut + more);
  }

  lemma PlainWrites(s: State, calls: seq<Call>, c: Call)
    requires Inv(s) && Agrees(s, calls) && c.Video? && !c.key && Reaches(s, c)
    ensures Step(s, c).log == s.log + Written(calls, s.log, c)
  {
    hide WellCut, Open, Slice, SwitchTs, Push, TsMuxUploader.Settle, CutDue, Paused, Counted, Tried, Limit, EndNow;
    hide KeyFirst, Times, Sorted;
    NoCut(calls, s.log, c);
    PushWrites(s, true, false, c.ts, c.seg, c.mux);
    assert s.log + [] == s.log && [] + Muxing(s.log, c) == Muxing(s.log, c);
  }

  lemma ClosedWhenPaused(s: State, calls: seq<Call>, c: Call)
    requires Inv(s) && Agrees(s, calls) && c.Video? && !Reaches(s, c)
    ensures Step(s, c) == s && Written(calls, s.log, c) == []
  {
    hide WellCut, Slice, Paused, Counted, Tried, Limit;
  }

  // ---- over every run

  lemma {:induction false} RunAgrees(calls: seq<Call>)
    requires forall c <- calls :: Timed(c)
    ensures Inv(Run(INITIAL, calls)) && Agrees(Run(INITIAL, calls), calls)
    decreases |calls|
  {
    hide Run, Inv, Step, Agrees, Timed, INITIAL;
    if calls == [] {
      FirstAgrees();
    } else {
      var before, c := calls[..|calls| - 1], calls[|calls| - 1];
      assert calls == before + [c] && c in calls;
      assert forall x <- before :: x in calls;
      RunAgrees(before);
      StepAgrees(Run(INITIAL, before), before, c);
      StepKeeps(Run(INITIAL, before), c);
      RunSnoc(INITIAL, before, c);
    }
  }

  lemma FirstAgrees()
    ensures Run(INITIAL, []) == INITIAL && Inv(INITIAL) && Agrees(INITIAL, [])
  {
    InitialInv();
  }

  /** Over every run, a call adds to the log exactly what the calls and the log before it say. */
  lemma LogExactly(calls: seq<Call>, c: Call)
    requires forall x <- calls :: Timed(x)
    ensures Run(INITIAL, calls + [c]).log == Run(INITIAL, calls).log + Written(calls, Run(INITIAL, calls).log, c)
  {
    hide Run, Inv, Step, Agrees, Written;
    RunAgrees(calls);
    StepWrites(Run(INITIAL, calls), calls, c);
    RunSnoc(INITIAL, calls, c);
  }

  /** The events a call added. */
  function Added(calls: seq<Call>, c: Call): seq<Event> {
    var before, after := Run(INITIAL, calls).log, Run(INITIAL, calls + [c]).log;
    if |after| >= |before| then after[|before|..] else []
  }

  lemma AddedIs(calls: seq<Call>, c: Call)
    requires forall x <- calls :: Timed(x)
    ensures Added(calls, c) == Written(calls, Run(INITIAL, calls).log, c)
  {
    hide Run, Written;
    LogExactly(calls, c);
    var log := Run(INITIAL, calls).log;
    var w := Written(calls, log, c);
    assert (log + w)[|log|..] == w;
  }

  /**
   A keyframe with unchanged parameter sets, not asked to start a slice and not out of memory, ends the slice under way
   if and only if it is more than the slice length in force past the first frame of the slice.
   */
  lemma LengthCutsExactly(calls: seq<Call>, c: Call)
    requires forall x <- calls :: Timed(x)
    requires c.Video? && c.key && c.sps == Same && !c.seg && c.mux != NoMemory
    ensures var log := Run(INITIAL, calls).log;
            (exists e <- Added(calls, c) :: e.End?) <==>
              Open(log) && Slice(log) != [] && Slice(log)[0].Frame? && c.ts - Slice(log)[0].ts > Limit(calls)
  {
    hide Run, Open, Slice, EndNow, Tried, Limit, Paused, Counted, Added;
    AddedIs(calls, c);
    var log := Run(INITIAL, calls).log;
    EndIsEnd(log);
    var w := Written(calls, log, c);
    if CutDue(calls, log, c) {
      assert w[0] == EndNow(log)[0];
    } else {
      NoEndIn(log, c);
      assert [] + Muxing(log, c) == Muxing(log, c) && log + [] == log;
    }
  }

  lemma EndIsEnd(log: seq<Event>)
    ensures |EndNow(log)| == 1 && EndNow(log)[0].End?
  {}

  lemma NoEndIn(log: seq<Event>, c: Call)
    requires (c.Video? || c.Audio?) && c.mux != NoMemory
    ensures forall e <- Muxing(log, c) :: !e.End?
  {
    hide Open;
  }

  /** The only causes of an end, all of them with a slice under way. */
  lemma EndCauses(calls: seq<Call>, c: Call)
    requires forall x <- calls :: Timed(x)
    requires exists e <- Added(calls, c) :: e.End?
    ensures var log := Run(INITIAL, calls).log;
            match c
            case PauseUpload => Open(log)
            case FlushUploader => Open(log)
            case Video(ts, key, seg, sps, mux) =>
              || (Open(log) && key && (sps == Changed || seg))
              || (Open(log) && key && Slice(log) != [] && Slice(log)[0].Frame? && ts - Slice(log)[0].ts > Limit(calls))
              || (Open(log) && Muxes(calls, c) && mux == NoMemory)
            case Audio(_, mux) => Open(log) && Muxes(calls, c) && mux == NoMemory
            case _ => false
  {
    hide Run, Added;
    AddedIs(calls, c);
    WrittenEnds(calls, Run(INITIAL, calls).log, c);
  }

  lemma WrittenEnds(calls: seq<Call>, log: seq<Event>, c: Call)
    requires exists e <- Written(calls, log, c) :: e.End?
    ensures Open(log)
    ensures match c
            case PauseUpload => true
            case FlushUploader => true
            case Video(ts, key, seg, sps, mux) => CutDue(calls, log, c) || (Muxes(calls, c) && mux == NoMemory)
            case Audio(_, mux) => Muxes(calls, c) && mux == NoMemory
            case _ => false
  {
    hide Open, Slice, EndNow, Tried, Limit, Paused, Counted, Muxes, CutDue;
    if c.Video? || c.Audio? {
      if CutDue(calls, log, c) {
        assert Open(log) && c.Video? by { CutOpens(calls, log, c); }
      } else {
        assert [] + Muxing(log, c) == Muxing(log, c) && log + [] == log;
        if c.mux != NoMemory {
          NoEndIn(log, c);
        }
      }
    }
  }

  lemma CutOpens(calls: seq<Call>, log: seq<Event>, c: Call)
    requires CutDue(calls, log, c)
    ensures Open(log) && c.Video?
  {}

  /** Every frame that is muxed with success is written, at the end of what its call adds; no other frame is. */
  lemma FramesExactly(calls: seq<Call>, c: Call)
    requires forall x <- calls :: Timed(x)
    ensures var added := Added(calls, c);
            if (c.Video? || c.Audio?) && Muxes(calls, c) && c.mux == Stored then
              && added != [] && added[|added| - 1] == Frame(c.Video?, c.Video? && c.key, c.ts)
              && forall i :: 0 <= i < |added| - 1 ==> !added[i].Frame?
            else forall e <- added :: !e.Frame?
  {
    hide Run, Added, Written;
    AddedIs(calls, c);
    WrittenFrames(calls, Run(INITIAL, calls).log, c);
  }

  lemma WrittenFrames(calls: seq<Call>, log: seq<Event>, c: Call)
    ensures var added := Written(calls, log, c);
            if (c.Video? || c.Audio?) && Muxes(calls, c) && c.mux == Stored then
              && added != [] && added[|added| - 1] == Frame(c.Video?, c.Video? && c.key, c.ts)
              && forall i :: 0 <= i < |added| - 1 ==> !added[i].Frame?
            else forall e <- added :: !e.Frame?
  {
    hide Open, Slice, EndNow, Tried, Limit, Paused, Counted, Muxes, CutDue;
    EndIsEnd(log);
    if c.Video? || c.Audio? {
      var cut := if CutDue(calls, log, c) then EndNow(log) else [];
      EndIsEnd(log + cut);
    }
  }
}
