/**
 The producer: frames are gated, slices are cut at keyframes, and the slice
 boundaries are reported to the uploader.

 The muxer and the comparison of the parameter sets are outside this module:
 their results arrive with each frame.
 */
module TsMuxUploader {

  /** LinkMuxerAudio and LinkMuxerVideo: the packets went out, there was no slice buffer to be had, or another error. */
  datatype Muxed = Stored | NoMemory | Failed

  /** getVideoSpsAndCompare on a keyframe. */
  datatype Sps = Same | Changed | Unreadable

  datatype Ret = Success | Paused | Error(why: Muxed) | BadSps

  /** What the uploader sees, in order: reports, and the frames of the slice between them. */
  datatype Event =
    | Start
    | End(audioDuration: int, videoDuration: int, mediaDuration: int)
    | Seg
    | Frame(video: bool, key: bool, ts: int)

  datatype State = State(
    keyFrames: nat,
    frames: nat,
    first: int,
    last: int,
    firstVideo: int,
    lastVideo: int,
    firstAudio: int,
    lastAudio: int,
    prevVideo: int,
    prevAudio: int,
    paused: bool,
    tsDuration: int,
    log: seq<Event>
  )

  const INITIAL := State(0, 0, -1, 0, 0, 0, 0, 0, 0, 0, false, 4000, [])

  function SwitchTs(s: State): State {
    s.(first := -1, last := 0, firstVideo := 0, lastVideo := 0, firstAudio := 0, lastAudio := 0,
       log := s.log + if s.first >= 0
                      then [End(s.lastAudio - s.firstAudio, s.lastVideo - s.firstVideo, s.last - s.first)]
                      else [])
  }

  /** A timestamp that does not advance its stream is dropped; 0 stands for no timestamp yet. */
  predicate Advances(s: State, video: bool, ts: int) {
    var prev := if video then s.prevVideo else s.prevAudio;
    prev == 0 || ts > prev
  }

  /** The reports and the frame a stored frame adds. */
  function Emitted(s: State, f: Event, seg: bool): seq<Event> {
    (if seg then [Seg] else []) + (if s.first < 0 then [Start] else []) + [f]
  }

  function Push(s: State, video: bool, key: bool, ts: int, seg: bool, mux: Muxed): (State, Ret) {
    if !Advances(s, video, ts) then (s, Success)
    else
      var s1 := if video then s.(prevVideo := ts) else s.(prevAudio := ts);
      if mux != Stored then (s1, Error(mux))
      else (Report(s1, video, key, ts, seg), Success)
  }

  /** A stored frame: reported, and counted into the times of its slice. */
  function Report(s: State, video: bool, key: bool, ts: int, seg: bool): State {
    var s1 := s.(log := s.log + Emitted(s, Frame(video, key, ts), seg),
                 first := if s.first < 0 then ts else s.first, last := ts);
    if video then s1.(firstVideo := if s.firstVideo <= 0 then ts else s.firstVideo, lastVideo := ts)
    else s1.(firstAudio := if s.firstAudio <= 0 then ts else s.firstAudio, lastAudio := ts)
  }

  /** The cut a video keyframe makes: the slice is long enough, the parameter sets changed, or it is asked for. */
  predicate Cuts(s: State, ts: int, seg: bool, sps: Sps) {
    || (ts - (if s.first < 0 then ts else s.first) > s.tsDuration && s.keyFrames > 0)
    || sps == Changed
    || (seg && s.frames != 0)
  }

  /** checkSwitch on a keyframe whose parameter sets could be read. */
  function CheckSwitch(s: State, ts: int, seg: bool, sps: Sps): State {
    var s1 := if Cuts(s, ts, seg, sps) then SwitchTs(s.(keyFrames := 0, frames := 0)) else s;
    s1.(keyFrames := s1.keyFrames + 1)
  }

  /** After push: count the frame, or end the slice when there was no buffer for it. */
  function Settle(s: State, ret: Ret): State {
    if ret == Success then s.(frames := s.frames + 1)
    else if ret == Error(NoMemory) then SwitchTs(s)
    else s
  }

  function PushVideo(s: State, ts: int, key: bool, seg: bool, sps: Sps, mux: Muxed): (State, Ret) {
    if s.paused then (s, Paused)
    else if s.keyFrames == 0 && !key then (s, Success)
    else if key && sps == Unreadable then (s, BadSps)
    else
      var s1 := if key then CheckSwitch(s, ts, seg, sps) else s;
      var (s2, ret) := Push(s1, true, key, ts, seg || (key && sps == Changed), mux);
      (Settle(s2, ret), ret)
  }

  function PushAudio(s: State, ts: int, mux: Muxed): (State, Ret) {
    if s.paused then (s, Paused)
    else if s.keyFrames == 0 then (s, Success)
    else
      var (s1, ret) := Push(s, false, false, ts, false, mux);
      (Settle(s1, ret), ret)
  }

  function Pause(s: State): State {
    SwitchTs(s.(paused := true, keyFrames := 0, frames := 0))
  }

  function Flush(s: State): State {
    SwitchTs(s).(keyFrames := 0, frames := 0)
  }

  datatype Call =
    | Video(ts: int, key: bool, seg: bool, sps: Sps, mux: Muxed)
    | Audio(ts: int, mux: Muxed)
    | PauseUpload
    | ResumeUpload
    | FlushUploader
    | Configure(tsDuration: int)

  function Step(s: State, c: Call): State {
    match c
    case Video(ts, key, seg, sps, mux) => PushVideo(s, ts, key, seg, sps, mux).0
    case Audio(ts, mux) => PushAudio(s, ts, mux).0
    case PauseUpload => Pause(s)
    case ResumeUpload => s.(paused := false)
    case FlushUploader => Flush(s)
    case Configure(d) => s.(tsDuration := d)
  }

  function Run(s: State, calls: seq<Call>): State
    decreases |calls|
  {
    if calls == [] then s else Run(Step(s, calls[0]), calls[1..])
  }

  /** FFTsMuxUploader, after LinkTsMuxUploaderStart and with the fixed append buffer. */
  class Uploader {
    var nKeyFrameCount: nat
    var nFrameCount: nat
    var nFirstFrameTimestamp: int
    var nLastFrameTimestamp: int
    var nFirstVideoFrameTimestamp: int
    var nLastVideoFrameTimestamp: int
    var nFirstAudioFrameTimestamp: int
    var nLastAudioFrameTimestamp: int
    var nPrevVideoTimestamp: int
    var nPrevAudioTimestamp: int
    var isPause: bool
    var nTsDuration: int
    var log: seq<Event>

    ghost function View(): State
      reads this
    {
      State(nKeyFrameCount, nFrameCount, nFirstFrameTimestamp, nLastFrameTimestamp, nFirstVideoFrameTimestamp,
            nLastVideoFrameTimestamp, nFirstAudioFrameTimestamp, nLastAudioFrameTimestamp, nPrevVideoTimestamp,
            nPrevAudioTimestamp, isPause, nTsDuration, log)
    }

    constructor ()
      ensures View() == INITIAL
    {
      nKeyFrameCount, nFrameCount, isPause, nTsDuration, log := 0, 0, false, 4000, [];
      nFirstFrameTimestamp, nLastFrameTimestamp := -1, 0;
      nFirstVideoFrameTimestamp, nLastVideoFrameTimestamp := 0, 0;
      nFirstAudioFrameTimestamp, nLastAudioFrameTimestamp := 0, 0;
      nPrevVideoTimestamp, nPrevAudioTimestamp := 0, 0;
    }

    method ResetTimeInfo()
      modifies this
      ensures View() == old(View()).(first := -1, last := 0, firstVideo := 0, lastVideo := 0, firstAudio := 0,
                                     lastAudio := 0)
    {
      nFirstAudioFrameTimestamp, nLastAudioFrameTimestamp := 0, 0;
      nFirstVideoFrameTimestamp, nLastVideoFrameTimestamp := 0, 0;
      nFirstFrameTimestamp, nLastFrameTimestamp := -1, 0;
    }

    method EndSlice()
      modifies this
      ensures View() == SwitchTs(old(View()))
    {
      if nFirstFrameTimestamp >= 0 {
        log := log + [End(nLastAudioFrameTimestamp - nFirstAudioFrameTimestamp,
                          nLastVideoFrameTimestamp - nFirstVideoFrameTimestamp,
                          nLastFrameTimestamp - nFirstFrameTimestamp)];
      } else {
        assert log + [] == log;
      }
      ResetTimeInfo();
    }

    method ReportFrame(video: bool, key: bool, ts: int, seg: bool)
      modifies this
      ensures View() == Report(old(View()), video, key, ts, seg)
    {
      if seg {
        log := log + [Seg];
      }
      if nFirstFrameTimestamp < 0 {
        log := log + [Start];
        nFirstFrameTimestamp := ts;
      }
      log := log + [Frame(video, key, ts)];
      assert log == old(log) + Emitted(old(View()), Frame(video, key, ts), seg);
      nLastFrameTimestamp := ts;
      if video {
        if nFirstVideoFrameTimestamp <= 0 {
          nFirstVideoFrameTimestamp := ts;
        }
        nLastVideoFrameTimestamp := ts;
      } else {
        if nFirstAudioFrameTimestamp <= 0 {
          nFirstAudioFrameTimestamp := ts;
        }
        nLastAudioFrameTimestamp := ts;
      }
    }

    method PushFrame(video: bool, key: bool, ts: int, seg: bool, mux: Muxed) returns (ret: Ret)
      modifies this
      ensures (View(), ret) == Push(old(View()), video, key, ts, seg, mux)
    {
      if video {
        if nPrevVideoTimestamp != 0 && ts - nPrevVideoTimestamp <= 0 {
          return Success;
        }
        nPrevVideoTimestamp := ts;
      } else {
        if nPrevAudioTimestamp != 0 && ts - nPrevAudioTimestamp <= 0 {
          return Success;
        }
        nPrevAudioTimestamp := ts;
      }
      if mux != Stored {
        return Error(mux);
      }
      ReportFrame(video, key, ts, seg);
      ret := Success;
    }

    method SwitchAtKeyframe(ts: int, seg: bool, sps: Sps)
      modifies this
      ensures View() == CheckSwitch(old(View()), ts, seg, sps)
    {
      var bakFirstFrameTimestamp := nFirstFrameTimestamp;
      if bakFirstFrameTimestamp < 0 {
        bakFirstFrameTimestamp := ts;
      }
      if (ts - bakFirstFrameTimestamp > nTsDuration && nKeyFrameCount > 0) || sps == Changed
        || (seg && nFrameCount != 0) {
        nKeyFrameCount, nFrameCount := 0, 0;
        EndSlice();
      }
      nKeyFrameCount := nKeyFrameCount + 1;
    }

    method Video(ts: int, key: bool, segStart: bool, sps: Sps, mux: Muxed) returns (ret: Ret)
      modifies this
      ensures (View(), ret) == PushVideo(old(View()), ts, key, segStart, sps, mux)
    {
      if isPause {
        return Paused;
      }
      if nKeyFrameCount == 0 && !key {
        return Success;
      }
      var seg := segStart;
      if key {
        if sps == Unreadable {
          return BadSps;
        }
        SwitchAtKeyframe(ts, segStart, sps);
        if sps == Changed {
          seg := true;
        }
      }
      ret := PushFrame(true, key, ts, seg, mux);
      if ret == Success {
        nFrameCount := nFrameCount + 1;
      }
      if ret == Error(NoMemory) {
        EndSlice();
      }
    }

    method Audio(ts: int, mux: Muxed) returns (ret: Ret)
      modifies this
      ensures (View(), ret) == PushAudio(old(View()), ts, mux)
    {
      if isPause {
        return Paused;
      }
      if nKeyFrameCount == 0 {
        return Success;
      }
      ret := PushFrame(false, false, ts, false, mux);
      if ret == Success {
        nFrameCount := nFrameCount + 1;
      }
      if ret == Error(NoMemory) {
        EndSlice();
      }
    }

    method PauseUpload()
      modifies this
      ensures View() == Pause(old(View()))
    {
      isPause := true;
      nKeyFrameCount, nFrameCount := 0, 0;
      EndSlice();
    }

    method ResumeUpload()
      modifies this
      ensures View() == old(View()).(paused := false)
    {
      isPause := false;
    }

    method FlushUploader()
      modifies this
      ensures View() == Flush(old(View()))
    {
      EndSlice();
      nKeyFrameCount, nFrameCount := 0, 0;
    }
  }
}
