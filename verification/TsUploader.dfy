/**
 The uploader worker: the durations of the slices of a session, and when a new
 session begins.

 Times of slices and sessions are nanoseconds, durations and limits are
 milliseconds. Uploading itself, pictures and the reports to the segment
 manager are outside this module: an upload is a yes or a no.
 */
module TsUploader {
  import opened Bytes
  import opened SessionId

  const PLAN_MOVE: int := 0
  const PLAN_24: int := 1

  /** LinkSession, without the fields that only go into reports. */
  datatype Session = Session(
    sessionId: seq<Byte>,
    startTime: int,
    sequenceNumber: int,
    endReason: int,
    accDuration: int,
    accAudio: int,
    accVideo: int,
    totalAudio: int,
    totalVideo: int,
    audioGap: int,
    videoGap: int,
    tsStartTime: int,
    tsDuration: int
  )

  /** The part of the upload argument and of the remote configuration that decides on new sessions. */
  datatype Keeper = Keeper(segmentId: int, segSeqNum: int, lastCheckTime: int, sessionDuration: int,
                           sessionTimeout: int)

  /** The bits of reportType: 1 a session started, 2 a slice was added, 4 a session ended. */
  datatype Report = Report(start: bool, seg: bool, end: bool) {
    function Or(r: Report): Report {
      Report(start || r.start, seg || r.seg, end || r.end)
    }
  }

  const NO_REPORT := Report(false, false, false)
  const NEW_SESSION := Report(true, false, true)
  const NEW_SLICE := Report(false, true, false)

  datatype Span = Span(audio: int, video: int) {
    function Plus(s: Span): Span {
      Span(audio + s.audio, video + s.video)
    }

    /** The duration of a slice: the longer one of its streams. */
    function Length(): (n: int)
      ensures n >= audio && n >= video && (n == audio || n == video)
    {
      if (video <= 0 && audio > 0) || audio > video then audio else video
    }
  }

  const ZERO := Span(0, 0)

  /**
   What an observer of the commands writes down: the slices uploaded and lost in the current session, the slice ended
   but not settled, the slice settled last, in whichever session, and how the session was opened: during a slice, or
   after which one.
   */
  datatype Ledger =
    Ledger(uploaded: Span, uploadedLength: int, lost: Span, pending: Pending, settled: Settled, during: bool,
           before: Settled)

  datatype Pending = Nothing | Ended(span: Span)

  datatype Settled = NoSlice | Uploaded(length: int) | Lost(length: int)

  datatype State = State(
    session: Session,
    keeper: Keeper,
    reportType: Report,
    isForceSeg: bool,
    internalForce: bool,
    firstSystime: int,
    lastTsDuration: int,
    audioDuration: int,
    videoDuration: int,
    meta: bool,
    oneShot: bool,
    isClr: bool,
    planType: int,
    ledger: Ledger,
    closed: seq<Session>
  )

  // ---- sessions

  /** LinkUpdateSessionId: the slice under way, if any, moves to the new session. */
  function UpdateSessionId(s: Session, start: int): Session {
    s.(sessionId := NameOf(start), startTime := start, sequenceNumber := 0, accDuration := s.tsDuration,
       accAudio := s.audioGap, accVideo := s.videoGap, totalAudio := s.audioGap, totalVideo := s.videoGap)
  }

  function NewLedger(l: Ledger): Ledger {
    Ledger(ZERO, 0, ZERO, l.pending, l.settled, l.pending != Nothing, l.settled)
  }

  function OpenSession(s: State, start: int): State {
    s.(session := UpdateSessionId(s.session, start), ledger := NewLedger(s.ledger))
  }

  /** handNewSession: the session that ends is kept as it was. */
  function HandNewSession(s: State, start: int, reason: int): State {
    OpenSession(s.(closed := s.closed + [s.session.(endReason := reason)],
                   session := s.session.(endReason := reason),
                   keeper := s.keeper.(segmentId := start, segSeqNum := 0, lastCheckTime := start)), start)
  }

  /**
   Whether a slice starting at cur, after one of the given duration, begins a new session, and why: 1 length, 2
   timeout.
   */
  function Rotation(k: Keeper, cur: int, tsDuration: int): int {
    if k.sessionDuration <= 0 then 0
    else if k.sessionDuration <= Quotient(cur - k.segmentId - tsDuration * MILLION, MILLION) then 1
    else if k.sessionTimeout > 0 && cur - k.lastCheckTime >= k.sessionTimeout * MILLION + tsDuration * MILLION then 2
    else 0
  }

  /** updateSegmentId: cur is 0 to force a new session. */
  function UpdateSegmentId(s: State, start: int, cur: int, tsDuration: int): (State, Report) {
    if s.keeper.segmentId == 0 then
      (OpenSession(s.(keeper := s.keeper.(segmentId := start, segSeqNum := 0,
                                          lastCheckTime := if cur == 0 then start else cur)), start),
       NO_REPORT)
    else if cur == 0 then (HandNewSession(s, start, 3), NEW_SESSION)
    else
      var why := Rotation(s.keeper, cur, tsDuration);
      var s1 := s.(keeper := s.keeper.(segSeqNum := s.session.sequenceNumber, lastCheckTime := cur));
      if why != 0 then (HandNewSession(s1, start, why), NEW_SESSION)
      else (s1, if s.keeper.sessionDuration > 0 && s.keeper.segSeqNum < s.session.sequenceNumber then NEW_SLICE
                else NO_REPORT)
  }

  // ---- commands

  /** handleSegTimeReport: a forced new session. */
  function SegTime(s: State, cur: int): State {
    var (s1, report) := UpdateSegmentId(s, cur, 0, 0);
    s1.(reportType := report)
  }

  /** handleTsStartTimeReport, up to the session check. */
  function NoteStart(s: State, t: int): State {
    var s0 := s.(session := s.session.(audioGap := 0, videoGap := 0));
    var s1 := if s0.isForceSeg then SegTime(s0.(isForceSeg := false), t) else s0;
    s1.(session := s1.session.(startTime := if s1.session.startTime <= 0 then t else s1.session.startTime,
                               tsStartTime := t),
        firstSystime := t)
  }

  /** handleTsStartTimeReport */
  function TsStart(s: State, t: int): State {
    var s1 := NoteStart(s, t);
    if s1.reportType == NO_REPORT then
      var counted := s1.(session := s1.session.(sequenceNumber := s1.session.sequenceNumber + 1));
      var (s2, report) := UpdateSegmentId(counted, t, t, s1.lastTsDuration);
      s2.(reportType := report)
    else if !s.isForceSeg then
      var (s2, report) := UpdateSegmentId(s1, t, t, s1.lastTsDuration);
      s2.(reportType := s1.reportType.Or(report))
    else s1
  }

  /** handleTsEndTimeReport */
  function TsEnd(s: State, t: int, span: Span): State {
    var x := s.session;
    s.(session := x.(accVideo := x.accVideo + span.video, accAudio := x.accAudio + span.audio,
                     totalVideo := x.totalVideo + span.video, totalAudio := x.totalAudio + span.audio,
                     videoGap := x.videoGap + span.video, audioGap := x.audioGap + span.audio,
                     tsDuration := span.Length(), accDuration := x.accDuration + span.Length()),
       audioDuration := span.audio, videoDuration := span.video,
       firstSystime := if s.firstSystime <= 0 then t else s.firstSystime,
       ledger := s.ledger.(pending := Ended(span)))
  }

  /** restoreDuration */
  function Restore(s: State): State {
    var x := s.session;
    s.(session := x.(accVideo := x.accVideo - s.videoDuration, accAudio := x.accAudio - s.audioDuration,
                     videoGap := x.videoGap - s.videoDuration, audioGap := x.audioGap - s.audioDuration,
                     accDuration := x.accDuration - x.tsDuration, tsDuration := 0),
       videoDuration := 0, audioDuration := 0)
  }

  /** A slice with bytes goes out under the permanent plan, or under the other one while there is meta data. */
  predicate ShouldUpload(s: State, bytes: bool) {
    ((s.meta && s.planType == PLAN_MOVE) || s.planType == PLAN_24) && bytes
  }

  function Settle(l: Ledger, ok: bool): Ledger {
    match l.pending
    case Nothing => l
    case Ended(span) =>
      if ok then
        l.(pending := Nothing, settled := Uploaded(span.Length()),
           uploaded := l.uploaded.Plus(span), uploadedLength := l.uploadedLength + span.Length())
      else l.(pending := Nothing, settled := Lost(span.Length()), lost := l.lost.Plus(span))
  }

  /** bufferUpload: accepted says whether the server took the slice, where it is sent at all. */
  function BufferUpload(s: State, bytes: bool, accepted: bool): State {
    var send := ShouldUpload(s, bytes);
    var s1 := s.(lastTsDuration := s.session.tsDuration, firstSystime := 0);
    CloseSlice(if send && accepted then s1 else Restore(s1), send, send && accepted)
  }

  /** The end of bufferUpload: the scopes of the slice and of its report are over. */
  function CloseSlice(s: State, sent: bool, ok: bool): State {
    s.(session := s.session.(sequenceNumber := if sent && s.reportType.start then 1 else s.session.sequenceNumber,
                             audioGap := 0, videoGap := 0, tsStartTime := 0, endReason := 0),
       meta := s.meta && !s.oneShot, reportType := NO_REPORT, internalForce := false,
       ledger := Settle(s.ledger, ok))
  }

  datatype Command =
    | StartTime(t: int)
    | EndTime(t: int, span: Span)
    | Upload(bytes: bool, accepted: bool)
    | DropTs(t: int, span: Span)
    | SegCommand(t: int)
    | SetMeta(once: bool)
    | ClrMeta
    | SetPlan(plan: int)
    | Configure(sessionDuration: int, sessionTimeout: int)

  function OnSetMeta(s: State, once: bool): State {
    var s0 := s.(isClr := false);
    var s1 :=
      if s0.internalForce then s0
      else if !s0.isForceSeg && s0.firstSystime > 0 then
        (if s0.session.sequenceNumber > 0 then SegTime(s0, s0.firstSystime) else s0)
      else s0.(isForceSeg := true);
    s1.(internalForce := true, meta := true, oneShot := once)
  }

  function OnClrMeta(s: State): State {
    s.(isClr := true, oneShot := s.oneShot || s.meta,
       isForceSeg := s.isForceSeg || (!s.internalForce && s.firstSystime > 0), internalForce := true)
  }

  /** A one-shot meta datum that was cleared between two slices does not go with the second one. */
  function ForgetMeta(s: State): State {
    if s.isClr && s.meta && s.oneShot then s.(meta := false, isClr := false) else s
  }

  /** One command of listenTsUpload, or a new remote configuration. */
  function Step(s: State, c: Command): State {
    match c
    case StartTime(t) => TsStart(ForgetMeta(s), t)
    case EndTime(t, span) => TsEnd(s, t, span)
    case Upload(bytes, accepted) => BufferUpload(s, bytes, accepted)
    case DropTs(t, span) => BufferUpload(TsEnd(s, t, span), false, false)
    case SegCommand(t) => SegTime(s.(meta := s.meta && !s.oneShot), t)
    case SetMeta(once) => OnSetMeta(s, once)
    case ClrMeta => OnClrMeta(s)
    case SetPlan(plan) => s.(planType := plan)
    case Configure(d, t) => s.(keeper := s.keeper.(sessionDuration := d, sessionTimeout := t))
  }

  function Run(s: State, cs: seq<Command>): State
    decreases |cs|
  {
    if cs == [] then s else Run(Step(s, cs[0]), cs[1..])
  }

  const NO_SESSION := Session([], 0, 0, 0, 0, 0, 0, 0, 0, 0, 0, 0, 0)

  const NO_LEDGER := Ledger(ZERO, 0, ZERO, Nothing, NoSlice, false, NoSlice)

  const CREATED :=
    State(NO_SESSION, Keeper(0, 0, 0, 100000, 3000), NO_REPORT, false, false, 0, 0, 0, 0, false, false, false, 0,
          NO_LEDGER, [])

  /** The first session, opened when the worker starts. */
  function Initial(now: int): State {
    UpdateSegmentId(CREATED, now, 0, 0).0
  }

  /** KodoUploader: the fields the worker changes command by command. */
  class Uploader {
    var session: Session
    var keeper: Keeper
    var reportType: Report
    var isForceSeg: bool
    var nInternalForceSegFlag: bool
    var nFirstSystime: int
    var nLastTsDuration: int
    var nAudioDuration: int
    var nVideoDuration: int
    var hasMeta: bool
    var isOneShot: bool
    var isClr: bool
    var planType: int
    ghost var ledger: Ledger
    ghost var closed: seq<Session>

    ghost function View(): State
      reads this
    {
      State(session, keeper, reportType, isForceSeg, nInternalForceSegFlag, nFirstSystime, nLastTsDuration,
            nAudioDuration, nVideoDuration, hasMeta, isOneShot, isClr, planType, ledger, closed)
    }

    constructor (now: int)
      ensures View() == Initial(now)
    {
      session, keeper, reportType := NO_SESSION, CREATED.keeper, NO_REPORT;
      ledger, closed := CREATED.ledger, [];
      isForceSeg, nInternalForceSegFlag, isClr, hasMeta, isOneShot := false, false, false, false, false;
      nFirstSystime, nLastTsDuration, nAudioDuration, nVideoDuration, planType := 0, 0, 0, 0, 0;
      new;
      var _ := Check(now, 0, 0);
    }

    method LinkUpdateSessionId(start: int)
      modifies this`session, this`ledger
      ensures View() == OpenSession(old(View()), start)
    {
      ledger := NewLedger(ledger);
      session := session.(sessionId := NameOf(start));
      session := session.(startTime := start, sequenceNumber := 0);
      session := session.(accDuration := session.tsDuration, accAudio := session.audioGap,
                          accVideo := session.videoGap);
      session := session.(totalAudio := session.audioGap, totalVideo := session.videoGap);
    }

    method NewSession(start: int, reason: int)
      modifies this`session, this`keeper, this`ledger, this`closed
      ensures View() == HandNewSession(old(View()), start, reason)
    {
      session := session.(endReason := reason);
      closed := closed + [session];
      LinkUpdateSessionId(start);
      keeper := keeper.(segmentId := session.startTime, segSeqNum := 0);
      keeper := keeper.(lastCheckTime := start);
    }

    method Check(start: int, cur: int, tsDuration: int) returns (report: Report)
      modifies this`session, this`keeper, this`ledger, this`closed
      ensures (View(), report) == UpdateSegmentId(old(View()), start, cur, tsDuration)
    {
      if keeper.segmentId == 0 {
        LinkUpdateSessionId(start);
        keeper := keeper.(lastCheckTime := if cur == 0 then start else cur);
        keeper := keeper.(segmentId := session.startTime, segSeqNum := 0);
        return NO_REPORT;
      }
      if cur == 0 {
        NewSession(start, 3);
        return NEW_SESSION;
      }
      var isSegIdChange, isSeqNumChange := 0, false;
      if keeper.sessionDuration > 0 {
        var duration := cur - keeper.segmentId - tsDuration * MILLION;
        if keeper.sessionDuration <= Quotient(duration, MILLION) {
          isSegIdChange := 1;
        } else if keeper.sessionTimeout > 0
               && cur - keeper.lastCheckTime >= keeper.sessionTimeout * MILLION + tsDuration * MILLION {
          isSegIdChange := 2;
        } else if keeper.segSeqNum < session.sequenceNumber {
          isSeqNumChange := true;
        }
      }
      keeper := keeper.(segSeqNum := session.sequenceNumber, lastCheckTime := cur);
      report := NO_REPORT;
      if isSegIdChange != 0 {
        NewSession(start, isSegIdChange);
        report := NEW_SESSION;
      } else if isSeqNumChange {
        report := NEW_SLICE;
      }
    }

    method HandleSegTimeReport(cur: int)
      modifies this
      ensures View() == SegTime(old(View()), cur)
    {
      reportType := Check(cur, 0, 0);
    }

    method HandleTsStartTimeReport(t: int)
      modifies this
      ensures View() == TsStart(old(View()), t)
    {
      hide UpdateSegmentId;
      var force := NoteStartTime(t);
      if reportType == NO_REPORT {
        session := session.(sequenceNumber := session.sequenceNumber + 1);
        reportType := Check(session.tsStartTime, t, nLastTsDuration);
      } else if !force {
        var xx := Check(session.tsStartTime, t, nLastTsDuration);
        reportType := reportType.Or(xx);
      }
    }

    method NoteStartTime(t: int) returns (force: bool)
      modifies this
      ensures View() == NoteStart(old(View()), t) && force == old(isForceSeg) && session.tsStartTime == t
    {
      hide UpdateSegmentId, SegTime;
      session := session.(audioGap := 0, videoGap := 0);
      force := isForceSeg;
      if isForceSeg {
        isForceSeg := false;
        HandleSegTimeReport(t);
      }
      if session.startTime <= 0 {
        session := session.(startTime := t);
      }
      session := session.(tsStartTime := t);
      nFirstSystime := t;
    }

    method HandleTsEndTimeReport(t: int, span: Span)
      modifies this
      ensures View() == TsEnd(old(View()), t, span)
    {
      hide Span.Length;
      if nFirstSystime <= 0 {
        nFirstSystime := t;
      }
      session := session.(
        accVideo := session.accVideo + span.video, accAudio := session.accAudio + span.audio,
        totalVideo := session.totalVideo + span.video, totalAudio := session.totalAudio + span.audio,
        videoGap := session.videoGap + span.video, audioGap := session.audioGap + span.audio,
        tsDuration := span.Length(), accDuration := session.accDuration + span.Length());
      nAudioDuration, nVideoDuration := span.audio, span.video;
      ledger := ledger.(pending := Ended(span));
    }

    method RestoreDuration()
      modifies this
      ensures View() == Restore(old(View()))
    {
      session := session.(accVideo := session.accVideo - nVideoDuration, accAudio := session.accAudio - nAudioDuration);
      session := session.(videoGap := session.videoGap - nVideoDuration, audioGap := session.audioGap - nAudioDuration);
      session := session.(accDuration := session.accDuration - session.tsDuration);
      session := session.(tsDuration := 0);
      nVideoDuration, nAudioDuration := 0, 0;
    }

    method UploadBuffer(bytes: bool, accepted: bool)
      modifies this
      ensures View() == BufferUpload(old(View()), bytes, accepted)
    {
      hide Settle, Restore, CloseSlice;
      nLastTsDuration := session.tsDuration;
      var shouldUpload := ((hasMeta && planType == PLAN_MOVE) || planType == PLAN_24) && bytes;
      nFirstSystime := 0;
      if !(shouldUpload && accepted) {
        RestoreDuration();
      }
      EndScopes(shouldUpload, shouldUpload && accepted);
    }

    method EndScopes(shouldReport: bool, ghost ok: bool)
      modifies this
      ensures View() == CloseSlice(old(View()), shouldReport, ok)
    {
      hide Settle;
      ledger := Settle(ledger, ok);
      if shouldReport && reportType.start {
        session := session.(sequenceNumber := 1);
      }
      session := session.(audioGap := 0, videoGap := 0, tsStartTime := 0, endReason := 0);
      if hasMeta && isOneShot {
        hasMeta := false;
      }
      reportType, nInternalForceSegFlag := NO_REPORT, false;
    }

    method HandleDropTsReport(t: int, span: Span)
      modifies this
      ensures View() == BufferUpload(TsEnd(old(View()), t, span), false, false)
    {
      HandleTsEndTimeReport(t, span);
      UploadBuffer(false, false);
    }

    /** One pass of the loop of listenTsUpload. */
    method Handle(c: Command)
      modifies this
      ensures View() == Step(old(View()), c)
    {
      hide TsStart, TsEnd, BufferUpload, SegTime, OnSetMeta, OnClrMeta;
      match c
      case StartTime(t) =>
        if isClr && hasMeta && isOneShot {
          hasMeta, isClr := false, false;
        }
        HandleTsStartTimeReport(t);
      case EndTime(t, span) => HandleTsEndTimeReport(t, span);
      case Upload(bytes, accepted) => UploadBuffer(bytes, accepted);
      case DropTs(t, span) => HandleDropTsReport(t, span);
      case SegCommand(t) =>
        if hasMeta && isOneShot {
          hasMeta := false;
        }
        HandleSegTimeReport(t);
      case SetMeta(once) => HandleSetMeta(once);
      case ClrMeta => HandleClrMeta();
      case SetPlan(plan) => planType := plan;
      case Configure(d, t) => keeper := keeper.(sessionDuration := d, sessionTimeout := t);
    }

    method HandleSetMeta(once: bool)
      modifies this
      ensures View() == OnSetMeta(old(View()), once)
    {
      hide UpdateSegmentId, SegTime;
      isClr := false;
      if !nInternalForceSegFlag {
        if !isForceSeg && nFirstSystime > 0 {
          if session.sequenceNumber > 0 {
            HandleSegTimeReport(nFirstSystime);
          }
        } else {
          isForceSeg := true;
        }
      }
      nInternalForceSegFlag := true;
      hasMeta, isOneShot := true, once;
    }

    method HandleClrMeta()
      modifies this
      ensures View() == OnClrMeta(old(View()))
    {
      isClr := true;
      if hasMeta {
        isOneShot := true;
      }
      if !nInternalForceSegFlag {
        if nFirstSystime > 0 {
          isForceSeg := true;
        }
      }
      nInternalForceSegFlag := true;
    }
  }
}
