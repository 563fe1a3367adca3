/**
 What every run of the producer keeps: starts and ends alternate, a slice holds
 no keyframe past its length, and when a slice starts with a keyframe.
 */
module SliceCuts {
  import opened TsMuxUploader

  // ---- reading the reports

  /** The frames of the slice the log is in, none between slices. */
  function Slice(log: seq<Event>): seq<Event> {
    if log == [] then []
    else
      var before, e := log[..|log| - 1], log[|log| - 1];
      match e
      case Start => []
      case End(_, _, _) => []
      case Seg => Slice(before)
      case Frame(_, _, _) => Slice(before) + [e]
  }

  predicate Open(log: seq<Event>) {
    log != [] &&
    match log[|log| - 1]
    case Start => true
    case End(_, _, _) => false
    case _ => Open(log[..|log| - 1])
  }

  predicate FramesOnly(fs: seq<Event>) {
    forall f <- fs :: f.Frame?
  }

  /** The first timestamp above zero of one stream of a slice, 0 without one. */
  function FirstPositive(fs: seq<Event>, video: bool): int
    requires FramesOnly(fs)
  {
    if fs == [] then 0
    else
      var before, f := fs[..|fs| - 1], fs[|fs| - 1];
      var t := FirstPositive(before, video);
      if f.video == video && t <= 0 then f.ts else t
  }

  function LastOf(fs: seq<Event>, video: bool): int
    requires FramesOnly(fs)
  {
    if fs == [] then 0
    else if fs[|fs| - 1].video == video then fs[|fs| - 1].ts
    else LastOf(fs[..|fs| - 1], video)
  }

  /** The timestamps of each stream do not fall, and start at zero or above. */
  predicate Ascending(fs: seq<Event>)
    requires FramesOnly(fs)
  {
    && (forall i :: 0 <= i < |fs| ==> fs[i].ts >= 0)
    && (forall i, j :: 0 <= i < j < |fs| && fs[i].video == fs[j].video ==> fs[i].ts <= fs[j].ts)
  }

  /** The durations an end report should carry. */
  function EndOf(fs: seq<Event>): Event
    requires FramesOnly(fs)
  {
    if fs == [] then End(0, 0, 0)
    else End(LastOf(fs, false) - FirstPositive(fs, false), LastOf(fs, true) - FirstPositive(fs, true),
             fs[|fs| - 1].ts - fs[0].ts)
  }

  lemma {:induction false} SliceOfFrames(log: seq<Event>)
    ensures FramesOnly(Slice(log))
  {
    if log != [] {
      SliceOfFrames(log[..|log| - 1]);
    }
  }

  /** Starts and ends alternate, frames lie inside slices, and an end reports its slice. */
  ghost predicate WellCut(log: seq<Event>) {
    log == [] ||
    var before, e := log[..|log| - 1], log[|log| - 1];
    && WellCut(before)
    && match e
       case Start => !Open(before)
       case End(_, _, _) =>
         Open(before) && Slice(before) != [] && FramesOnly(Slice(before)) && Ascending(Slice(before))
           && e == EndOf(Slice(before))
       case Frame(_, _, _) => Open(before)
       case Seg => true
  }

  /** Every slice starts with a video keyframe. */
  predicate KeyFirst(log: seq<Event>) {
    log == [] ||
    var before, e := log[..|log| - 1], log[|log| - 1];
    KeyFirst(before) && (e.Frame? && Slice(before) == [] ==> e.video && e.key)
  }

  lemma Snoc(log: seq<Event>, e: Event)
    ensures (log + [e])[..|log|] == log
    ensures Slice(log + [e]) == if e.Frame? then Slice(log) + [e] else if e.Seg? then Slice(log) else []
    ensures Open(log + [e]) <==> e.Start? || (!e.End? && Open(log))
    ensures WellCut(log + [e]) <==>
              && WellCut(log) && (e.Start? ==> !Open(log)) && (e.Frame? ==> Open(log))
              && (e.End? ==>
                    && Open(log) && Slice(log) != [] && FramesOnly(Slice(log)) && Ascending(Slice(log))
                    && e == EndOf(Slice(log)))
    ensures KeyFirst(log + [e]) <==> KeyFirst(log) && (e.Frame? && Slice(log) == [] ==> e.video && e.key)
  {
    assert (log + [e])[..|log|] == log;
  }

  // ---- the invariant

  /** The time fields are those of the slice under way. */
  predicate Times(s: State, fs: seq<Event>)
    requires FramesOnly(fs)
  {
    && s.firstVideo == FirstPositive(fs, true) && s.lastVideo == LastOf(fs, true)
    && s.firstAudio == FirstPositive(fs, false) && s.lastAudio == LastOf(fs, false)
    && (fs != [] ==> s.first == fs[0].ts && s.last == fs[|fs| - 1].ts)
  }

  function Prev(s: State, video: bool): int {
    if video then s.prevVideo else s.prevAudio
  }

  /** The slice under way ascends, up to the timestamps the next frames are measured against. */
  predicate Sorted(s: State, fs: seq<Event>)
    requires FramesOnly(fs)
  {
    Ascending(fs) && forall i :: 0 <= i < |fs| ==> fs[i].ts <= Prev(s, fs[i].video)
  }

  ghost predicate Inv(s: State) {
    && WellCut(s.log)
    && (s.first >= 0 <==> Open(s.log)) && (Open(s.log) <==> Slice(s.log) != [])
    && (s.first >= 0 ==> s.keyFrames > 0 && s.frames > 0)
    && (s.paused ==> s.keyFrames == 0)
    && FramesOnly(Slice(s.log)) && Times(s, Slice(s.log)) && Sorted(s, Slice(s.log))
  }

  lemma InitialInv()
    ensures Inv(INITIAL)
  {}

  /** The invariant without the counters, which change before a slice is ended. */
  ghost predicate LogInv(s: State) {
    && WellCut(s.log)
    && (s.first >= 0 <==> Open(s.log)) && (Open(s.log) <==> Slice(s.log) != [])
    && FramesOnly(Slice(s.log)) && Times(s, Slice(s.log)) && Sorted(s, Slice(s.log))
  }

  lemma SwitchKeeps(s: State)
    requires LogInv(s)
    ensures LogInv(SwitchTs(s)) && SwitchTs(s).first < 0
    ensures KeyFirst(s.log) ==> KeyFirst(SwitchTs(s).log)
  {
    hide WellCut, Open, Slice, KeyFirst;
    if s.first >= 0 {
      Snoc(s.log, End(s.lastAudio - s.firstAudio, s.lastVideo - s.firstVideo, s.last - s.first));
    } else {
      assert s.log + [] == s.log;
    }
  }

  lemma SortedMore(s: State, t: State, fs: seq<Event>, f: Event)
    requires FramesOnly(fs) && Sorted(s, fs) && f.Frame? && f.ts == Prev(s, f.video) >= 0
    requires t.prevVideo == s.prevVideo && t.prevAudio == s.prevAudio
    ensures FramesOnly(fs + [f]) && Sorted(t, fs + [f])
  {}

  /** A frame that advances its stream is no earlier than what is in the slice. */
  lemma SortedAdvance(s: State, video: bool, ts: int, fs: seq<Event>)
    requires FramesOnly(fs) && Sorted(s, fs) && Advances(s, video, ts) && ts >= 0
    ensures Sorted(if video then s.(prevVideo := ts) else s.(prevAudio := ts), fs)
  {}

  lemma OneMore(fs: seq<Event>, f: Event, video: bool)
    requires FramesOnly(fs) && f.Frame?
    ensures FramesOnly(fs + [f])
    ensures FirstPositive(fs + [f], video)
         == if f.video == video && FirstPositive(fs, video) <= 0 then f.ts else FirstPositive(fs, video)
    ensures LastOf(fs + [f], video) == if f.video == video then f.ts else LastOf(fs, video)
  {
    assert (fs + [f])[..|fs|] == fs;
  }

  /** What the events of one stored frame do to the log. */
  lemma EmittedLog(s: State, f: Event, seg: bool)
    requires f.Frame? && WellCut(s.log)
    requires (s.first >= 0 <==> Open(s.log)) && (Open(s.log) <==> Slice(s.log) != []) && FramesOnly(Slice(s.log))
    ensures var log := s.log + Emitted(s, f, seg);
            && WellCut(log) && Open(log) && Slice(log) == Slice(s.log) + [f]
            && (KeyFirst(log) <==> KeyFirst(s.log) && (s.first < 0 ==> f.video && f.key))
  {
    hide WellCut, Open, Slice, KeyFirst;
    var l0 := s.log;
    var l1 := l0 + if seg then [Seg] else [];
    var l2 := l1 + if s.first < 0 then [Start] else [];
    Snoc(l0, Seg);
    assert l0 + [] == l0 && l1 + [] == l1;
    Snoc(l1, Start);
    Snoc(l2, f);
    assert l0 + Emitted(s, f, seg) == l2 + [f];
    assert Slice(l0) == [] ==> [] + [f] == Slice(l0) + [f];
  }

  lemma ReportKeeps(s: State, video: bool, key: bool, ts: int, seg: bool)
    requires LogInv(s) && ts >= 0 && Prev(s, video) == ts
    ensures LogInv(Report(s, video, key, ts, seg)) && Report(s, video, key, ts, seg).first >= 0
    ensures KeyFirst(Report(s, video, key, ts, seg).log) <==> KeyFirst(s.log) && (s.first < 0 ==> video && key)
  {
    hide WellCut, Open, Slice, KeyFirst, FirstPositive, LastOf, Sorted;
    var f := Frame(video, key, ts);
    SortedMore(s, Report(s, video, key, ts, seg), Slice(s.log), f);
    EmittedLog(s, f, seg);
    OneMore(Slice(s.log), f, true);
    OneMore(Slice(s.log), f, false);
  }

  /** Below zero a timestamp cannot mark its slice as begun: the slice is open and the next frame starts it again. */
  lemma NegativeStartsAgain(s: State, video: bool, key: bool, ts: int, seg: bool)
    requires LogInv(s) && s.first < 0 && ts < 0
    ensures var t := Report(s, video, key, ts, seg); Open(t.log) && t.first < 0
  {
    hide WellCut, Open, Slice, KeyFirst;
    EmittedLog(s, Frame(video, key, ts), seg);
  }

  /** A timestamp the caller may pass: the first one of a slice marks the slice as begun. */
  predicate Timed(c: Call) {
    match c
    case Video(ts, _, _, _, _) => ts >= 0
    case Audio(ts, _) => ts >= 0
    case _ => true
  }

  lemma CheckSwitchKeeps(s: State, ts: int, seg: bool, sps: Sps)
    requires Inv(s)
    ensures var s1 := CheckSwitch(s, ts, seg, sps);
            && LogInv(s1) && s1.keyFrames > 0 && s1.paused == s.paused
            && (s1.first >= 0 ==> ts - s1.first <= s.tsDuration && s1.frames > 0)
            && (s1.first < 0 <==> s.first < 0 || Cuts(s, ts, seg, sps))
            && (KeyFirst(s.log) ==> KeyFirst(s1.log))
  {
    hide WellCut, Open, Slice, KeyFirst;
    if Cuts(s, ts, seg, sps) {
      SwitchKeeps(s.(keyFrames := 0, frames := 0));
    }
  }

  /** push and what follows it, in a slice with a counted keyframe. */
  lemma PushKeeps(s: State, video: bool, key: bool, ts: int, seg: bool, mux: Muxed)
    requires LogInv(s) && ts >= 0 && s.keyFrames > 0 && !s.paused && (s.first >= 0 ==> s.frames > 0)
    ensures var (s1, ret) := Push(s, video, key, ts, seg, mux);
            var t := Settle(s1, ret);
            && Inv(t) && t.keyFrames == s.keyFrames
            && (t.first >= 0 <==> if Advances(s, video, ts) && mux == Stored then true
                                  else s.first >= 0 && !(Advances(s, video, ts) && mux == NoMemory))
            && (KeyFirst(t.log) <== KeyFirst(s.log) && (s.first < 0 ==> video && key))
  {
    hide WellCut, Open, Slice, KeyFirst, Report, SwitchTs, Times, Sorted;
    if Advances(s, video, ts) {
      var s1 := if video then s.(prevVideo := ts) else s.(prevAudio := ts);
      SortedAdvance(s, video, ts, Slice(s.log));
      SameTimes(s, s1);
      if mux == Stored {
        ReportKeeps(s1, video, key, ts, seg);
        ReportFields(s1, video, key, ts, seg);
        SameTimes(Report(s1, video, key, ts, seg), Settle(Report(s1, video, key, ts, seg), Success));
        SameSorted(Report(s1, video, key, ts, seg), Settle(Report(s1, video, key, ts, seg), Success));
      } else if mux == NoMemory {
        SwitchKeeps(s1);
        SwitchFields(s1);
      }
    } else {
      SameTimes(s, Settle(s, Success));
      SameSorted(s, Settle(s, Success));
    }
  }

  lemma SameTimes(s: State, t: State)
    requires FramesOnly(Slice(s.log)) && Times(s, Slice(s.log)) && t.log == s.log
    requires t.first == s.first && t.last == s.last && t.firstVideo == s.firstVideo && t.lastVideo == s.lastVideo
    requires t.firstAudio == s.firstAudio && t.lastAudio == s.lastAudio
    ensures Times(t, Slice(t.log))
  {}

  lemma SameSorted(s: State, t: State)
    requires FramesOnly(Slice(s.log)) && Sorted(s, Slice(s.log)) && t.log == s.log
    requires t.prevVideo == s.prevVideo && t.prevAudio == s.prevAudio
    ensures Sorted(t, Slice(t.log))
  {}

  lemma ReportFields(s: State, video: bool, key: bool, ts: int, seg: bool)
    ensures var t := Report(s, video, key, ts, seg);
            t.keyFrames == s.keyFrames && t.frames == s.frames && t.paused == s.paused && t.tsDuration == s.tsDuration
  {}

  lemma SwitchFields(s: State)
    ensures var t := SwitchTs(s);
            t.keyFrames == s.keyFrames && t.frames == s.frames && t.paused == s.paused && t.tsDuration == s.tsDuration
  {}

  /** Whether a video frame gets as far as the muxer. */
  predicate Reaches(s: State, c: Call)
    requires c.Video?
  {
    !s.paused && (s.keyFrames > 0 || c.key) && !(c.key && c.sps == Unreadable)
  }

  /** Counted keyframes always belong to a slice under way. */
  predicate Anchored(s: State) {
    s.keyFrames > 0 ==> s.first >= 0
  }

  /**
   The calls after which a counted keyframe is in no slice: there was no buffer, or the keyframe of a new slice was
   not sent.
   */
  predicate Breaks(s: State, c: Call) {
    match c
    case Video(ts, key, seg, sps, mux) =>
      && Reaches(s, c)
      && ((Advances(s, true, ts) && mux == NoMemory)
          || (key && (s.first < 0 || Cuts(s, ts, seg, sps)) && !(Advances(s, true, ts) && mux == Stored)))
    case Audio(ts, mux) => !s.paused && s.keyFrames > 0 && Advances(s, false, ts) && mux == NoMemory
    case _ => false
  }

  /** Every call keeps the invariant; an anchored state stays so exactly without a breaking call. */
  lemma StepKeeps(s: State, c: Call)
    requires Inv(s) && Timed(c)
    ensures Inv(Step(s, c))
    ensures Anchored(s) ==> (Anchored(Step(s, c)) <==> !Breaks(s, c))
    ensures Anchored(s) && KeyFirst(s.log) ==> KeyFirst(Step(s, c).log)
  {
    hide WellCut, Open, Slice, KeyFirst, Times, Cuts, Push, Settle, CheckSwitch, SwitchTs;
    match c
    case Video(ts, key, seg, sps, mux) =>
      if Reaches(s, c) {
        VideoKeeps(s, ts, key, seg, sps, mux);
      }
    case Audio(ts, mux) =>
      if !s.paused && s.keyFrames > 0 {
        PushKeeps(s, false, false, ts, false, mux);
      }
    case PauseUpload =>
      SameTimes(s, s.(paused := true, keyFrames := 0, frames := 0));
      SwitchKeeps(s.(paused := true, keyFrames := 0, frames := 0));
      SwitchFields(s.(paused := true, keyFrames := 0, frames := 0));
    case FlushUploader =>
      SwitchKeeps(s);
      SwitchFields(s);
      SameTimes(SwitchTs(s), Flush(s));
    case ResumeUpload => SameTimes(s, s.(paused := false));
    case Configure(d) => SameTimes(s, s.(tsDuration := d));
  }

  lemma VideoKeeps(s: State, ts: int, key: bool, seg: bool, sps: Sps, mux: Muxed)
    requires Inv(s) && ts >= 0 && Reaches(s, Video(ts, key, seg, sps, mux))
    ensures var t := PushVideo(s, ts, key, seg, sps, mux).0;
            && Inv(t)
            && (Anchored(s) ==> (Anchored(t) <==> !Breaks(s, Video(ts, key, seg, sps, mux))))
            && (Anchored(s) && KeyFirst(s.log) ==> KeyFirst(t.log))
  {
    hide WellCut, Open, Slice, KeyFirst, Times, Cuts, Push, Settle, CheckSwitch;
    var s1 := s;
    if key {
      CheckSwitchKeeps(s, ts, seg, sps);
      CutPrev(s, ts, seg, sps);
      s1 := CheckSwitch(s, ts, seg, sps);
    }
    PushKeeps(s1, true, key, ts, seg || (key && sps == Changed), mux);
  }

  lemma CutPrev(s: State, ts: int, seg: bool, sps: Sps)
    ensures CheckSwitch(s, ts, seg, sps).prevVideo == s.prevVideo
  {}

  // ---- over every run

  ghost predicate NeverBreaks(s: State, calls: seq<Call>)
    decreases |calls|
  {
    calls == [] || (!Breaks(s, calls[0]) && NeverBreaks(Step(s, calls[0]), calls[1..]))
  }

  /** A keyframe that a call adds to a slice is no further past its first frame than the slice length now in force. */
  ghost predicate KeySpaced(s: State, c: Call) {
    var log := Step(s, c).log;
    c.Video? && |log| > |s.log| && log[|log| - 1] == Frame(true, true, c.ts) && |Slice(log)| > 1 ==>
      Slice(log)[0].Frame? && c.ts - Slice(log)[0].ts <= s.tsDuration
  }

  lemma StepSpaced(s: State, c: Call)
    requires Inv(s) && Timed(c)
    ensures KeySpaced(s, c)
  {
    hide WellCut, Open, Slice, KeyFirst, Cuts, CheckSwitch, SwitchTs;
    if c.Video? && c.key && Reaches(s, c) {
      CheckSwitchKeeps(s, c.ts, c.seg, c.sps);
      var s1 := CheckSwitch(s, c.ts, c.seg, c.sps);
      var f, seg := Frame(true, true, c.ts), c.seg || c.sps == Changed;
      if Advances(s1, true, c.ts) && c.mux == Stored {
        EmittedLog(s1.(prevVideo := c.ts), f, seg);
        assert Step(s, c).log == s1.log + Emitted(s1.(prevVideo := c.ts), f, seg);
        assert Slice(Step(s, c).log) == Slice(s1.log) + [f];
      } else {
        LastIsOld(s, c);
      }
    } else if c.Video? && !c.key {
      NoKeyframe(s, c);
    }
  }

  lemma NoKeyframe(s: State, c: Call)
    requires c.Video? && !c.key
    ensures var log := Step(s, c).log; |log| > |s.log| ==> log[|log| - 1] != Frame(true, true, c.ts)
  {}

  /** A keyframe that is not stored leaves the log as it is, or with an end. */
  lemma LastIsOld(s: State, c: Call)
    requires c.Video? && c.key && Reaches(s, c)
    requires !(Advances(CheckSwitch(s, c.ts, c.seg, c.sps), true, c.ts) && c.mux == Stored)
    ensures var log := Step(s, c).log; |log| > |s.log| ==> log[|log| - 1].End?
  {
    hide Cuts;
  }

  ghost predicate SpacedRun(s: State, calls: seq<Call>)
    decreases |calls|
  {
    calls == [] || (KeySpaced(s, calls[0]) && SpacedRun(Step(s, calls[0]), calls[1..]))
  }

  /** Starts and ends alternate with true durations, and no keyframe is left in a slice past its length. */
  lemma {:induction false} RunKeeps(s: State, calls: seq<Call>)
    requires Inv(s) && forall c <- calls :: Timed(c)
    ensures Inv(Run(s, calls)) && SpacedRun(s, calls)
    decreases |calls|
  {
    hide Inv, Step, KeySpaced;
    if calls != [] {
      StepKeeps(s, calls[0]);
      StepSpaced(s, calls[0]);
      RunKeeps(Step(s, calls[0]), calls[1..]);
    }
  }

  lemma EveryRun(calls: seq<Call>)
    requires forall c <- calls :: Timed(c)
    ensures WellCut(Run(INITIAL, calls).log) && SpacedRun(INITIAL, calls)
  {
    hide Run, SpacedRun;
    InitialInv();
    RunKeeps(INITIAL, calls);
  }

  /** Without a breaking call every slice starts with a video keyframe. */
  lemma {:induction false} RunKeyFirst(s: State, calls: seq<Call>)
    requires Inv(s) && Anchored(s) && KeyFirst(s.log) && NeverBreaks(s, calls)
    requires forall c <- calls :: Timed(c)
    ensures KeyFirst(Run(s, calls).log) && Anchored(Run(s, calls))
    decreases |calls|
  {
    hide Inv, Step, Breaks, Anchored, KeyFirst;
    if calls != [] {
      StepKeeps(s, calls[0]);
      RunKeyFirst(Step(s, calls[0]), calls[1..]);
    }
  }

  /** After a breaking call the next audio frame that advances starts a slice without a keyframe. */
  lemma BrokenStartsWithAudio(s: State, ts: int)
    requires Inv(s) && !Anchored(s) && ts >= 0 && Advances(s, false, ts)
    ensures Step(s, Audio(ts, Stored)).log == s.log + [Start, Frame(false, false, ts)]
    ensures !KeyFirst(Step(s, Audio(ts, Stored)).log)
  {
    hide WellCut, Open, Slice, KeyFirst, Times;
    var f := Frame(false, false, ts);
    assert !s.paused;
    assert Emitted(s, f, false) == [Start, f];
    EmittedLog(s, f, false);
  }

  lemma RunThree(s: State, a: Call, b: Call, c: Call)
    ensures Run(s, [a, b, c]) == Step(Step(Step(s, a), b), c)
  {
    hide Step;
    assert [a, b, c][1..] == [b, c] && [b, c][1..] == [c] && [c][1..] == [];
    assert Run(Step(Step(s, a), b), [c]) == Step(Step(Step(s, a), b), c);
  }

  /** No buffer for the keyframe a slice was to start with: the slice starts without it. */
  lemma KeylessAfterNoMemory()
    ensures var s := Step(INITIAL, Video(1, true, false, Same, Stored));
            !KeyFirst(Run(s, [FlushUploader, Video(2, true, false, Same, NoMemory), Audio(3, Stored)]).log)
  {
    hide Inv, KeyFirst, Run;
    InitialInv();
    var a, b := Video(1, true, false, Same, Stored), Video(2, true, false, Same, NoMemory);
    var s := Step(INITIAL, a);
    StepKeeps(INITIAL, a);
    StepKeeps(s, FlushUploader);
    StepKeeps(Step(s, FlushUploader), b);
    BrokenStartsWithAudio(Step(Step(s, FlushUploader), b), 3);
    RunThree(s, FlushUploader, b, Audio(3, Stored));
  }

  /** A keyframe that does not advance is counted for the slice it was to start: the slice starts without it. */
  lemma KeylessAfterLate()
    ensures var s := Step(INITIAL, Video(5, true, false, Same, Stored));
            !KeyFirst(Run(s, [FlushUploader, Video(5, true, false, Same, Stored), Audio(6, Stored)]).log)
  {
    hide Inv, KeyFirst, Run;
    InitialInv();
    var a := Video(5, true, false, Same, Stored);
    var s := Step(INITIAL, a);
    StepKeeps(INITIAL, a);
    StepKeeps(s, FlushUploader);
    StepKeeps(Step(s, FlushUploader), a);
    BrokenStartsWithAudio(Step(Step(s, FlushUploader), a), 6);
    RunThree(s, FlushUploader, a, Audio(6, Stored));
  }

  /** A slice start asked for on a keyframe always begins a slice; on any other frame it never does. */
  lemma ForcedStart(s: State, ts: int, key: bool, sps: Sps)
    requires Inv(s) && Anchored(s) && ts >= 0 && Reaches(s, Video(ts, key, true, sps, Stored)) && Advances(s, true, ts)
    ensures var log := Step(s, Video(ts, key, true, sps, Stored)).log;
            && |log| >= 2 && log[|log| - 1] == Frame(true, key, ts)
            && log[|log| - 2] == if key then Start else Seg
  {
    hide WellCut, Open, Slice, KeyFirst, Times;
    if key {
      CheckSwitchKeeps(s, ts, true, sps);
    }
  }

  /**
   The duration an end reports for a stream is the whole of it, except when its first timestamp is 0 and not its last.
   */
  lemma {:induction false} DurationExactly(fs: seq<Event>, i: nat, video: bool)
    requires FramesOnly(fs) && Ascending(fs)
    requires i < |fs| && fs[i].video == video && forall j :: 0 <= j < i ==> fs[j].video != video
    ensures FirstPositive(fs, video) == fs[i].ts <==> fs[i].ts > 0 || LastOf(fs, video) == 0
  {
    FirstPositiveIs(fs, i, video);
  }

  lemma {:induction false} FirstPositiveIs(fs: seq<Event>, i: nat, video: bool)
    requires FramesOnly(fs) && Ascending(fs)
    requires i < |fs| && fs[i].video == video && forall j :: 0 <= j < i ==> fs[j].video != video
    ensures fs[i].ts > 0 ==> FirstPositive(fs, video) == fs[i].ts
    ensures fs[i].ts == 0 ==> (FirstPositive(fs, video) == 0 <==> LastOf(fs, video) == 0)
    ensures 0 <= FirstPositive(fs, video) <= LastOf(fs, video)
  {
    var before := fs[..|fs| - 1];
    if i < |fs| - 1 {
      FirstPositiveIs(before, i, video);
      LastIsIn(before, i, video);
    } else {
      NoneYet(before, video);
    }
  }

  lemma {:induction false} NoneYet(fs: seq<Event>, video: bool)
    requires FramesOnly(fs) && forall j :: 0 <= j < |fs| ==> fs[j].video != video
    ensures FirstPositive(fs, video) == 0
  {
    if fs != [] {
      NoneYet(fs[..|fs| - 1], video);
    }
  }

  lemma {:induction false} LastIsIn(fs: seq<Event>, i: nat, video: bool)
    requires FramesOnly(fs) && i < |fs| && fs[i].video == video
    ensures exists j :: 0 <= j < |fs| && fs[j].video == video && fs[j].ts == LastOf(fs, video)
  {
    if fs[|fs| - 1].video != video {
      LastIsIn(fs[..|fs| - 1], i, video);
      var j :| 0 <= j < |fs| - 1 && fs[..|fs| - 1][j].video == video && fs[..|fs| - 1][j].ts == LastOf(fs, video);
      assert fs[j].video == video;
    }
  }
}
