/**
 The slices of a producer's log, and the durations its ends report against the
 durations of the frames.
 */
module SliceSpans {
  import opened TsMuxUploader
  import opened SliceCuts
  import opened TsUploader

  /** The frames of every slice that was ended, in order. */
  function Slices(log: seq<Event>): (r: seq<seq<Event>>)
    ensures forall fs <- r :: FramesOnly(fs)
  {
    if log == [] then []
    else
      var before, e := log[..|log| - 1], log[|log| - 1];
      SliceOfFrames(before);
      Slices(before) + if e.End? then [Slice(before)] else []
  }

  /** The first timestamp of one stream of a slice, 0 without one. */
  function FirstOf(fs: seq<Event>, video: bool): int
    requires FramesOnly(fs)
  {
    if fs == [] then 0 else if fs[0].video == video then fs[0].ts else FirstOf(fs[1..], video)
  }

  /** How long one stream of a slice is, first frame to last. */
  function TrueLength(fs: seq<Event>, video: bool): int
    requires FramesOnly(fs)
  {
    LastOf(fs, video) - FirstOf(fs, video)
  }

  function TrueSpan(fs: seq<Event>): Span
    requires FramesOnly(fs)
  {
    Span(TrueLength(fs, false), TrueLength(fs, true))
  }

  function ReportedSpan(fs: seq<Event>): Span
    requires FramesOnly(fs)
  {
    Span(LastOf(fs, false) - FirstPositive(fs, false), LastOf(fs, true) - FirstPositive(fs, true))
  }

  function TrueSpans(slices: seq<seq<Event>>): Span
    requires forall fs <- slices :: FramesOnly(fs)
  {
    if slices == [] then ZERO else TrueSpans(slices[..|slices| - 1]).Plus(TrueSpan(slices[|slices| - 1]))
  }

  function ReportedSpans(slices: seq<seq<Event>>): Span
    requires forall fs <- slices :: FramesOnly(fs)
  {
    if slices == [] then ZERO else ReportedSpans(slices[..|slices| - 1]).Plus(ReportedSpan(slices[|slices| - 1]))
  }

  /** A stream of the slice starts at timestamp 0 and goes on. */
  predicate FromZero(fs: seq<Event>)
    requires FramesOnly(fs)
  {
    exists video: bool ::
      (exists i :: 0 <= i < |fs| && fs[i].video == video) && FirstOf(fs, video) == 0 && LastOf(fs, video) > 0
  }

  // ---- one slice

  lemma {:induction false} FirstIsAt(fs: seq<Event>, video: bool)
    requires FramesOnly(fs)
    ensures (exists i :: 0 <= i < |fs| && fs[i].video == video) ==>
              exists i :: 0 <= i < |fs| && fs[i].video == video && fs[i].ts == FirstOf(fs, video)
                          && forall j :: 0 <= j < i ==> fs[j].video != video
    ensures !(exists i :: 0 <= i < |fs| && fs[i].video == video) ==>
            FirstOf(fs, video) == 0 == LastOf(fs, video) == FirstPositive(fs, video)
  {
    if fs == [] {
    } else if fs[0].video == video {
      assert fs[0].ts == FirstOf(fs, video);
    } else if i :| 0 <= i < |fs| && fs[i].video == video {
      assert fs[1..][i - 1].video == video;
      FirstIsAt(fs[1..], video);
      var k :| 0 <= k < |fs| - 1 && fs[1..][k].video == video && fs[1..][k].ts == FirstOf(fs, video)
            && forall j :: 0 <= j < k ==> fs[1..][j].video != video;
      forall j | 0 <= j < k + 1 ensures fs[j].video != video {
        assert j == 0 || fs[j] == fs[1..][j - 1];
      }
      assert fs[k + 1].video == video;
    } else {
      NoneAtAll(fs, video);
    }
  }

  lemma NoneAtAll(fs: seq<Event>, video: bool)
    requires FramesOnly(fs) && forall j :: 0 <= j < |fs| ==> fs[j].video != video
    ensures FirstOf(fs, video) == 0 == LastOf(fs, video)
    ensures FirstPositive(fs, video) == 0
  {
    NoneYet(fs, video);
    NoneFirst(fs, video);
    NoneLast(fs, video);
  }

  lemma {:induction false} NoneFirst(fs: seq<Event>, video: bool)
    requires FramesOnly(fs) && forall j :: 0 <= j < |fs| ==> fs[j].video != video
    ensures FirstOf(fs, video) == 0
  {
    if fs != [] {
      NoneFirst(fs[1..], video);
    }
  }

  lemma {:induction false} NoneLast(fs: seq<Event>, video: bool)
    requires FramesOnly(fs) && forall j :: 0 <= j < |fs| ==> fs[j].video != video
    ensures LastOf(fs, video) == 0
  {
    if fs != [] {
      NoneLast(fs[..|fs| - 1], video);
    }
  }

  /** A stream is never reported longer than it is, and shorter exactly when it goes on from timestamp 0. */
  lemma StreamReported(fs: seq<Event>, video: bool)
    requires FramesOnly(fs) && Ascending(fs)
    ensures 0 <= LastOf(fs, video) - FirstPositive(fs, video) <= TrueLength(fs, video)
    ensures LastOf(fs, video) - FirstPositive(fs, video) == TrueLength(fs, video) <==>
              !((exists i :: 0 <= i < |fs| && fs[i].video == video) && FirstOf(fs, video) == 0 && LastOf(fs, video) > 0)
  {
    FirstIsAt(fs, video);
    if exists i :: 0 <= i < |fs| && fs[i].video == video {
      var i :| 0 <= i < |fs| && fs[i].video == video && fs[i].ts == FirstOf(fs, video)
            && forall j :: 0 <= j < i ==> fs[j].video != video;
      FirstPositiveIs(fs, i, video);
    }
  }

  lemma SliceReported(fs: seq<Event>)
    requires FramesOnly(fs) && Ascending(fs)
    ensures 0 <= ReportedSpan(fs).audio <= TrueSpan(fs).audio && 0 <= ReportedSpan(fs).video <= TrueSpan(fs).video
    ensures ReportedSpan(fs) == TrueSpan(fs) <==> !FromZero(fs)
  {
    hide FirstPositive, LastOf, TrueLength, FirstOf, Ascending;
    StreamReported(fs, false);
    StreamReported(fs, true);
    FromZeroIs(fs);
    LengthIs(fs, false);
    LengthIs(fs, true);
  }

  lemma LengthIs(fs: seq<Event>, video: bool)
    requires FramesOnly(fs)
    ensures TrueLength(fs, video) == LastOf(fs, video) - FirstOf(fs, video)
  {}

  lemma FromZeroIs(fs: seq<Event>)
    requires FramesOnly(fs)
    ensures FromZero(fs) <==>
              || ((exists i :: 0 <= i < |fs| && fs[i].video) && FirstOf(fs, true) == 0 && LastOf(fs, true) > 0)
              || ((exists i :: 0 <= i < |fs| && !fs[i].video) && FirstOf(fs, false) == 0 && LastOf(fs, false) > 0)
  {
    hide FirstOf, LastOf;
  }

  // ---- the whole log

  /**
   Reported durations of a well-cut log never exceed the true ones, and are the true ones exactly when no slice goes
   on from 0.
   */
  lemma {:induction false} LogReported(log: seq<Event>)
    requires WellCut(log)
    ensures 0 <= ReportedSpans(Slices(log)).audio <= TrueSpans(Slices(log)).audio
    ensures 0 <= ReportedSpans(Slices(log)).video <= TrueSpans(Slices(log)).video
    ensures ReportedSpans(Slices(log)) == TrueSpans(Slices(log)) <==> forall fs <- Slices(log) :: !FromZero(fs)
  {
    if log != [] {
      var before, e := log[..|log| - 1], log[|log| - 1];
      LogReported(before);
      if e.End? {
        SliceReported(Slice(before));
        SnocSpans(Slices(before), Slice(before));
      } else {
        assert Slices(log) == Slices(before);
      }
    }
  }

  lemma SnocSpans(slices: seq<seq<Event>>, fs: seq<Event>)
    requires (forall x <- slices :: FramesOnly(x)) && FramesOnly(fs)
    ensures ReportedSpans(slices + [fs]) == ReportedSpans(slices).Plus(ReportedSpan(fs))
    ensures TrueSpans(slices + [fs]) == TrueSpans(slices).Plus(TrueSpan(fs))
  {
    assert (slices + [fs])[..|slices|] == slices;
  }

  /** What the ends of a log say. */
  function Said(e: Event): Span {
    match e
    case End(audio, video, _) => Span(audio, video)
    case _ => ZERO
  }

  function SaidAll(log: seq<Event>): Span {
    if log == [] then ZERO else SaidAll(log[..|log| - 1]).Plus(Said(log[|log| - 1]))
  }

  /** In a well-cut log the ends say what the frames of their slices give. */
  lemma {:induction false} EndsSaySlices(log: seq<Event>)
    requires WellCut(log)
    ensures SaidAll(log) == ReportedSpans(Slices(log))
  {
    if log != [] {
      var before, e := log[..|log| - 1], log[|log| - 1];
      EndsSaySlices(before);
      if e.End? {
        SnocSpans(Slices(before), Slice(before));
        assert Said(e) == ReportedSpan(Slice(before));
      } else {
        assert Slices(log) == Slices(before);
      }
    }
  }

  lemma {:induction false} EndsNotNegative(log: seq<Event>)
    requires WellCut(log)
    ensures forall e <- log :: Said(e).audio >= 0 && Said(e).video >= 0
  {
    if log != [] {
      var before, e := log[..|log| - 1], log[|log| - 1];
      EndsNotNegative(before);
      if e.End? {
        SliceReported(Slice(before));
        assert Said(e) == ReportedSpan(Slice(before));
      }
      assert log == before + [e];
    }
  }
}
