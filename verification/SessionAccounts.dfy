/**
 What the commands do to a session: its durations are those of the slices the
 ledger names, and its rotations come in time.
 */
module SessionAccounts {
  import opened Bytes
  import opened SessionId
  import opened TsUploader

  // ---- durations

  function Under(p: Pending): Span {
    match p
    case Nothing => ZERO
    case Ended(span) => span
  }

  /** What nTsDuration and nLastTsDuration remember of a settled slice: a lost one is taken back from the first. */
  function Kept(d: Settled): int {
    if d.Uploaded? then d.length else 0
  }

  function LengthOf(d: Settled): int {
    if d.NoSlice? then 0 else d.length
  }

  /** What nAccSessionDuration starts from besides the slice under way. */
  function Carried(l: Ledger): int {
    if l.during then 0 else Kept(l.before)
  }

  /** The books of the session: accumulated is uploaded and under way, total is accumulated and lost. */
  ghost predicate BooksOf(x: Session, l: Ledger, audio: int, video: int) {
    var p := Under(l.pending);
    && x.accAudio == l.uploaded.audio + p.audio && x.accVideo == l.uploaded.video + p.video
    && x.totalAudio == x.accAudio + l.lost.audio && x.totalVideo == x.accVideo + l.lost.video
    && x.audioGap == p.audio && x.videoGap == p.video
    && x.accDuration == l.uploadedLength + Carried(l) + p.Length()
    && x.tsDuration == (if l.pending == Nothing then Kept(l.settled) else p.Length())
    && (l.pending != Nothing ==> audio == p.audio && video == p.video)
  }

  ghost predicate Books(s: State) {
    BooksOf(s.session, s.ledger, s.audioDuration, s.videoDuration) && s.lastTsDuration == LengthOf(s.ledger.settled)
  }

  /** Each end has its upload or drop before the next start or end; sessions may be forced anywhere. */
  predicate Ordered(l: Ledger, c: Command) {
    match c
    case StartTime(_) => l.pending == Nothing
    case EndTime(_, _) => l.pending == Nothing
    case DropTs(_, _) => l.pending == Nothing
    case Upload(_, _) => l.pending != Nothing
    case _ => true
  }

  lemma OpenKeepsBooks(s: State, start: int)
    requires Books(s)
    ensures Books(OpenSession(s, start))
  {
    var p := Under(s.ledger.pending);
    if s.ledger.pending == Nothing {
      assert p == ZERO && p.Length() == 0;
    }
    hide Span.Length;
    var x, l := UpdateSessionId(s.session, start), NewLedger(s.ledger);
    assert Under(l.pending) == p;
    assert x.accDuration == l.uploadedLength + Carried(l) + p.Length();
  }

  lemma CheckKeepsBooks(s: State, start: int, cur: int, tsDuration: int)
    requires Books(s)
    ensures Books(UpdateSegmentId(s, start, cur, tsDuration).0)
    ensures UpdateSegmentId(s, start, cur, tsDuration).0.ledger.pending == s.ledger.pending
  {
    hide Rotation, Books, OpenSession;
    if s.keeper.segmentId == 0 {
      var s1 := s.(keeper := s.keeper.(segmentId := start, segSeqNum := 0,
                                       lastCheckTime := if cur == 0 then start else cur));
      SameBooks(s, s1);
      OpenKeepsBooks(s1, start);
      PendingStays(s1, start);
    } else {
      var s1 := s.(keeper := s.keeper.(segSeqNum := s.session.sequenceNumber, lastCheckTime := cur));
      SameBooks(s, s1);
      HandKeepsBooks(s, start, 3);
      HandKeepsBooks(s1, start, Rotation(s.keeper, cur, tsDuration));
    }
  }

  lemma PendingStays(s: State, start: int)
    ensures OpenSession(s, start).ledger.pending == s.ledger.pending
  {}

  lemma HandKeepsBooks(s: State, start: int, reason: int)
    requires Books(s)
    ensures Books(HandNewSession(s, start, reason))
    ensures HandNewSession(s, start, reason).ledger.pending == s.ledger.pending
  {
    hide OpenSession;
    var s1 := s.(closed := s.closed + [s.session.(endReason := reason)], session := s.session.(endReason := reason),
                 keeper := s.keeper.(segmentId := start, segSeqNum := 0, lastCheckTime := start));
    OpenKeepsBooks(s1, start);
    PendingStays(s1, start);
  }

  lemma SegKeepsBooks(s: State, cur: int)
    requires Books(s)
    ensures Books(SegTime(s, cur)) && SegTime(s, cur).ledger.pending == s.ledger.pending
  {
    hide UpdateSegmentId;
    CheckKeepsBooks(s, cur, 0, 0);
  }

  lemma StartKeepsBooks(s: State, t: int)
    requires Books(s) && s.ledger.pending == Nothing
    ensures Books(TsStart(s, t)) && TsStart(s, t).ledger.pending == Nothing
  {
    hide UpdateSegmentId, SegTime;
    var s0 := s.(session := s.session.(audioGap := 0, videoGap := 0));
    SegKeepsBooks(s0.(isForceSeg := false), t);
    var s1 := NoteStart(s, t);
    CheckKeepsBooks(s1.(session := s1.session.(sequenceNumber := s1.session.sequenceNumber + 1)), t, t,
                    s1.lastTsDuration);
    CheckKeepsBooks(s1, t, t, s1.lastTsDuration);
  }

  lemma EndKeepsBooks(s: State, t: int, span: Span)
    requires Books(s) && s.ledger.pending == Nothing
    ensures Books(TsEnd(s, t, span)) && TsEnd(s, t, span).ledger == s.ledger.(pending := Ended(span))
  {}

  lemma UploadKeepsBooks(s: State, bytes: bool, accepted: bool)
    requires Books(s) && s.ledger.pending != Nothing
    ensures Books(BufferUpload(s, bytes, accepted)) && BufferUpload(s, bytes, accepted).ledger.pending == Nothing
  {}

  lemma StepKeepsBooks(s: State, c: Command)
    requires Books(s) && Ordered(s.ledger, c)
    ensures Books(Step(s, c))
  {
    hide Books, TsStart, TsEnd, BufferUpload, SegTime;
    match c
    case StartTime(t) =>
      SameBooks(s, ForgetMeta(s));
      StartKeepsBooks(ForgetMeta(s), t);
    case EndTime(t, span) => EndKeepsBooks(s, t, span);
    case Upload(bytes, accepted) => UploadKeepsBooks(s, bytes, accepted);
    case DropTs(t, span) =>
      EndKeepsBooks(s, t, span);
      UploadKeepsBooks(TsEnd(s, t, span), false, false);
    case SegCommand(t) =>
      SameBooks(s, s.(meta := s.meta && !s.oneShot));
      SegKeepsBooks(s.(meta := s.meta && !s.oneShot), t);
    case SetMeta(once) =>
      SameBooks(s, s.(isClr := false));
      SegKeepsBooks(s.(isClr := false), s.firstSystime);
      SameBooks(SegTime(s.(isClr := false), s.firstSystime),
                SegTime(s.(isClr := false), s.firstSystime).(internalForce := true, meta := true, oneShot := once));
      SameBooks(s, s.(isClr := false, isForceSeg := true, internalForce := true, meta := true, oneShot := once));
      SameBooks(s, s.(isClr := false, internalForce := true, meta := true, oneShot := once));
    case _ => SameBooks(s, Step(s, c));
  }

  lemma SameBooks(s: State, t: State)
    requires Books(s) && t.session == s.session && t.ledger == s.ledger
    requires t.audioDuration == s.audioDuration && t.videoDuration == s.videoDuration
    requires t.lastTsDuration == s.lastTsDuration
    ensures Books(t)
  {}

  ghost predicate OrderedRun(s: State, cs: seq<Command>)
    decreases |cs|
  {
    cs == [] || (Ordered(s.ledger, cs[0]) && OrderedRun(Step(s, cs[0]), cs[1..]))
  }

  lemma {:induction false} RunKeepsBooks(s: State, cs: seq<Command>)
    requires Books(s) && OrderedRun(s, cs)
    ensures Books(Run(s, cs))
    decreases |cs|
  {
    hide Books, Step, Ordered;
    if cs != [] {
      StepKeepsBooks(s, cs[0]);
      RunKeepsBooks(Step(s, cs[0]), cs[1..]);
    }
  }

  lemma InitialBooks(now: int)
    ensures Books(Initial(now))
  {
    hide UpdateSegmentId;
    EmptyBooks();
    CheckKeepsBooks(CREATED, now, 0, 0);
  }

  lemma EmptyBooks()
    ensures Books(CREATED)
  {
    hide NO_LEDGER, NO_SESSION, BooksOf;
    ZeroBooks();
  }

  lemma ZeroBooks()
    ensures BooksOf(NO_SESSION, NO_LEDGER, 0, 0) && LengthOf(NO_LEDGER.settled) == 0
  {
    assert Under(NO_LEDGER.pending) == ZERO && ZERO.Length() == 0;
  }

  /**
   After every run that leaves no slice unsettled: accumulated is what was uploaded, and the rest of the total what
   was lost.
   */
  lemma AccountsAreExact(now: int, cs: seq<Command>)
    requires OrderedRun(Initial(now), cs)
    ensures var s := Run(Initial(now), cs);
            s.ledger.pending == Nothing ==>
              && s.session.accVideo == s.ledger.uploaded.video && s.session.accAudio == s.ledger.uploaded.audio
              && s.session.totalVideo - s.session.accVideo == s.ledger.lost.video
              && s.session.totalAudio - s.session.accAudio == s.ledger.lost.audio
              && s.session.accDuration == s.ledger.uploadedLength + Carried(s.ledger)
              && s.lastTsDuration == LengthOf(s.ledger.settled)
  {
    InitialBooks(now);
    hide Run, OrderedRun, Initial;
    RunKeepsBooks(Initial(now), cs);
  }

  /**
   After every settled run nAccSessionDuration is the length of the uploaded slices exactly when its session was opened
   during a slice, as the first one, or after a slice that was lost or had no length.
   */
  lemma CarriedExactly(now: int, cs: seq<Command>)
    requires OrderedRun(Initial(now), cs) && Run(Initial(now), cs).ledger.pending == Nothing
    ensures var s := Run(Initial(now), cs);
            s.session.accDuration == s.ledger.uploadedLength <==>
              || s.ledger.during
              || match s.ledger.before case NoSlice => true case Lost(_) => true case Uploaded(length) => length == 0
  {
    hide Run, OrderedRun, Initial;
    AccountsAreExact(now, cs);
  }

  /** A slice uploaded before the rotation counts a second time in the session after it. */
  lemma CarriedOver(s: State, t: int, start: int, video: int)
    requires Books(s) && s.ledger.pending == Nothing && s.planType == PLAN_24 && video > 0 && s.keeper.segmentId != 0
    ensures var x := Run(s, [EndTime(t, Span(0, video)), Upload(true, true), SegCommand(start)]);
            && x.ledger.pending == Nothing && x.ledger.uploaded == ZERO && x.ledger.uploadedLength == 0
            && x.session.accVideo == 0 && x.session.accDuration == video
  {
    var s1 := Step(s, EndTime(t, Span(0, video)));
    var s2 := Step(s1, Upload(true, true));
    assert s2.session.tsDuration == video;
    RunThree(s, EndTime(t, Span(0, video)), Upload(true, true), SegCommand(start));
  }

  lemma RunThree(s: State, a: Command, b: Command, c: Command)
    ensures Run(s, [a, b, c]) == Step(Step(Step(s, a), b), c)
  {
    hide Step;
    assert [a, b, c][1..] == [b, c] && [b, c][1..] == [c] && [c][1..] == [];
    assert Run(Step(Step(s, a), b), [c]) == Step(Step(Step(s, a), b), c);
  }

  /**
   A start between an end and its upload would lose the slice from a session it opens, exactly when the slice had a
   duration.
   */
  lemma StartWhilePending(s: State, t: int)
    requires Books(s) && s.ledger.pending != Nothing && s.reportType == NO_REPORT && !s.isForceSeg
    requires s.keeper.segmentId != 0 && t != 0 && Rotation(s.keeper, t, s.lastTsDuration) != 0
    ensures var x := TsStart(s, t).session;
            Span(x.accAudio, x.accVideo) == Under(s.ledger.pending) <==> Under(s.ledger.pending) == ZERO
  {
    hide Rotation;
  }

  // ---- rotation

  /** The session in the books of the keeper is the one under way, and no assertion of its end can fail. */
  predicate Timed(s: State) {
    && s.keeper.segmentId == s.session.startTime > 0 && s.session.sessionId == NameOf(s.session.startTime)
    && (s.reportType.end ==> s.session.endReason != 0)
    && s.firstSystime >= 0 && (s.session.tsStartTime > 0 ==> s.firstSystime == s.session.tsStartTime)
  }

  predicate Clock(c: Command) {
    match c
    case StartTime(t) => t > 0
    case EndTime(t, _) => t > 0
    case DropTs(t, _) => t > 0
    case SegCommand(t) => t > 0
    case _ => true
  }

  lemma QuotientBound(a: int, n: int)
    requires n > 0
    ensures n <= Quotient(a, MILLION) <==> a >= n * MILLION
  {}

  /** When a slice begins a new session: too long after the start of the session, or too long after the last check. */
  lemma RotationExactly(k: Keeper, t: int, d: int)
    requires k.sessionDuration > 0
    ensures Rotation(k, t, d) != 0 <==>
              || t - k.segmentId >= (k.sessionDuration + d) * MILLION
              || (k.sessionTimeout > 0 && t - k.lastCheckTime >= (k.sessionTimeout + d) * MILLION)
  {
    QuotientBound(t - k.segmentId - d * MILLION, k.sessionDuration);
  }

  lemma HandTimes(s: State, start: int, reason: int)
    requires Timed(s) && start > 0 && reason != 0
    ensures var t := HandNewSession(s, start, reason);
            && Timed(t) && t.session.startTime == start && t.session.endReason == reason
            && t.keeper.lastCheckTime == start
            && t.reportType == s.reportType && t.isForceSeg == s.isForceSeg
            && t.lastTsDuration == s.lastTsDuration && t.firstSystime == s.firstSystime
            && t.session.tsStartTime == s.session.tsStartTime
            && t.keeper.sessionDuration == s.keeper.sessionDuration
            && t.keeper.sessionTimeout == s.keeper.sessionTimeout
  {
    hide NameOf, NewLedger;
  }

  lemma CheckTimes(s: State, start: int, cur: int, d: int)
    requires Timed(s) && start > 0 && cur >= 0
    ensures var (t, report) := UpdateSegmentId(s, start, cur, d);
            && Timed(t.(reportType := s.reportType.Or(report))) && Timed(t.(reportType := report))
            && t.reportType == s.reportType && t.isForceSeg == s.isForceSeg
            && t.lastTsDuration == s.lastTsDuration && t.firstSystime == s.firstSystime
            && t.session.tsStartTime == s.session.tsStartTime
            && t.keeper.lastCheckTime == (if cur == 0 || Rotation(s.keeper, cur, d) != 0 then start else cur)
            && (if cur == 0 || Rotation(s.keeper, cur, d) != 0
                then t.session.startTime == start && report == NEW_SESSION
                else t.session == s.session && !report.end)
            && t.keeper.sessionDuration == s.keeper.sessionDuration
            && t.keeper.sessionTimeout == s.keeper.sessionTimeout
  {
    hide Rotation, NameOf, HandNewSession;
    HandTimes(s, start, 3);
    var s1 := s.(keeper := s.keeper.(segSeqNum := s.session.sequenceNumber, lastCheckTime := cur));
    if Rotation(s.keeper, cur, d) != 0 {
      HandTimes(s1, start, Rotation(s.keeper, cur, d));
    }
  }

  /** Where a slice may start: at the start of its session, or in time for the session and for its predecessor. */
  ghost predicate InTime(s: State, t: int, after: State) {
    || after.session.startTime == t
    || (&& after.session.startTime == s.session.startTime
        && t - s.session.startTime < (s.keeper.sessionDuration + s.lastTsDuration) * MILLION
        && (s.keeper.sessionTimeout > 0 ==>
            t - s.keeper.lastCheckTime < (s.keeper.sessionTimeout + s.lastTsDuration) * MILLION))
  }

  /** Before its check a start has at most forced a new session of its own. */
  lemma NoteStartTimed(s: State, t: int)
    requires Timed(s) && t > 0
    ensures var s1 := NoteStart(s, t);
            && Timed(s1) && s1.lastTsDuration == s.lastTsDuration
            && (if s.isForceSeg
                then s1.session.startTime == t && s1.keeper.lastCheckTime == t && s1.reportType == NEW_SESSION
                else s1.keeper == s.keeper && s1.reportType == s.reportType)
            && s1.keeper.sessionDuration == s.keeper.sessionDuration
            && s1.keeper.sessionTimeout == s.keeper.sessionTimeout
  {
    hide UpdateSegmentId, Rotation, NameOf;
    CheckTimes(s.(session := s.session.(audioGap := 0, videoGap := 0), isForceSeg := false), t, 0, 0);
  }

  lemma StartInTime(s: State, t: int)
    requires Timed(s) && t > 0
    ensures var after := TsStart(s, t);
            && Timed(after) && after.keeper.lastCheckTime == t
            && (s.keeper.sessionDuration > 0 ==> InTime(s, t, after))
  {
    hide UpdateSegmentId, Rotation, NameOf, NoteStart;
    NoteStartTimed(s, t);
    var s1 := NoteStart(s, t);
    var s2 := s1.(session := s1.session.(sequenceNumber := s1.session.sequenceNumber + 1));
    CheckTimes(s2, t, t, s1.lastTsDuration);
    CheckTimes(s1, t, t, s1.lastTsDuration);
    if s.keeper.sessionDuration > 0 {
      RotationExactly(s1.keeper, t, s1.lastTsDuration);
    }
  }

  /** Every command keeps the keeper and the session together, and a slice starts in time. */
  lemma StepInTime(s: State, c: Command)
    requires Timed(s) && Clock(c)
    ensures Timed(Step(s, c))
    ensures c.StartTime? ==> Step(s, c).keeper.lastCheckTime == c.t
    ensures c.StartTime? && s.keeper.sessionDuration > 0 ==> InTime(s, c.t, Step(s, c))
    ensures !c.StartTime? && Step(s, c).keeper.lastCheckTime != s.keeper.lastCheckTime ==>
              Step(s, c).keeper.lastCheckTime == Step(s, c).session.startTime
  {
    hide TsStart, TsEnd, BufferUpload, UpdateSegmentId, Rotation, OnSetMeta, SegTime, NameOf;
    match c
    case StartTime(t) => StartInTime(ForgetMeta(s), t);
    case EndTime(t, span) => EndTimed(s, t, span);
    case Upload(bytes, accepted) => UploadTimed(s, bytes, accepted);
    case DropTs(t, span) =>
      EndTimed(s, t, span);
      UploadTimed(TsEnd(s, t, span), false, false);
    case SegCommand(t) => SegTimed(s.(meta := s.meta && !s.oneShot), t);
    case SetMeta(once) => SetMetaTimed(s, once);
    case _ =>
  }

  lemma SegTimed(s: State, t: int)
    requires Timed(s) && t > 0
    ensures Timed(SegTime(s, t)) && SegTime(s, t).keeper.lastCheckTime == t == SegTime(s, t).session.startTime
  {
    hide UpdateSegmentId;
    CheckTimes(s, t, 0, 0);
  }

  lemma SetMetaTimed(s: State, once: bool)
    requires Timed(s)
    ensures var t := OnSetMeta(s, once);
            Timed(t) && (t.keeper.lastCheckTime == s.keeper.lastCheckTime
                         || t.keeper.lastCheckTime == t.session.startTime)
  {
    hide SegTime;
    if s.firstSystime > 0 {
      SegTimed(s.(isClr := false), s.firstSystime);
    }
  }

  lemma EndTimed(s: State, t: int, span: Span)
    requires Timed(s) && t > 0
    ensures Timed(TsEnd(s, t, span)) && TsEnd(s, t, span).keeper == s.keeper
  {
    hide Span.Length;
  }

  lemma UploadTimed(s: State, bytes: bool, accepted: bool)
    requires Timed(s)
    ensures Timed(BufferUpload(s, bytes, accepted)) && BufferUpload(s, bytes, accepted).keeper == s.keeper
  {
    hide Settle;
  }

  /**
   Meta data set while a slice is under way moves the slice to a session that starts with it, unless that was just
   done.
   */
  lemma ForcedAtSliceStart(s: State, once: bool)
    requires Timed(s) && s.session.tsStartTime > 0 && !s.internalForce && !s.isForceSeg && s.session.sequenceNumber > 0
    ensures Step(s, SetMeta(once)).session.startTime == s.session.tsStartTime
    ensures Books(s) ==> Step(s, SetMeta(once)).session.totalVideo == Under(s.ledger.pending).video
  {
    hide UpdateSegmentId, NameOf, Books;
    var s0 := s.(isClr := false);
    CheckTimes(s0, s.firstSystime, 0, 0);
    if Books(s) {
      SameBooks(s, s0);
      ForcedTotal(s0, s.firstSystime);
    }
  }

  lemma ForcedTotal(s: State, start: int)
    requires Books(s) && s.keeper.segmentId != 0
    ensures SegTime(s, start).session.totalVideo == Under(s.ledger.pending).video
  {
    hide NameOf;
  }

  ghost predicate RunInTime(s: State, cs: seq<Command>)
    decreases |cs|
  {
    cs == [] ||
    (&& (cs[0].StartTime? && s.keeper.sessionDuration > 0 ==> InTime(s, cs[0].t, Step(s, cs[0])))
     && RunInTime(Step(s, cs[0]), cs[1..]))
  }

  lemma {:induction false} EveryRunInTime(s: State, cs: seq<Command>)
    requires Timed(s) && forall c <- cs :: Clock(c)
    ensures Timed(Run(s, cs)) && RunInTime(s, cs)
    decreases |cs|
  {
    hide Step, Timed, InTime, Clock;
    if cs != [] {
      StepInTime(s, cs[0]);
      EveryRunInTime(Step(s, cs[0]), cs[1..]);
    }
  }

  /** From the first session on. */
  lemma RotationInTime(now: int, cs: seq<Command>)
    requires now > 0 && forall c <- cs :: Clock(c)
    ensures Timed(Run(Initial(now), cs)) && RunInTime(Initial(now), cs)
  {
    hide Run, RunInTime;
    EveryRunInTime(Initial(now), cs);
  }
}
