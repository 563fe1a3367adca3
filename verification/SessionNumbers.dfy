/**
 Why a session was closed, and the numbers of its slices: what the fields say
 that go into the reports and the names of the uploads.
 */
module SessionNumbers {
  import opened TsUploader
  import opened SessionId
  import opened SessionAccounts
  import opened SessionTotals

  // ---- why a session ends

  /** The session was over by its length when a slice started at t. */
  predicate TooLong(k: Keeper, t: int, d: int) {
    k.sessionDuration > 0 && t - k.segmentId >= (k.sessionDuration + d) * 1_000_000
  }

  /** No slice had started for too long. */
  predicate TooLate(k: Keeper, t: int, d: int) {
    k.sessionDuration > 0 && k.sessionTimeout > 0 && t - k.lastCheckTime >= (k.sessionTimeout + d) * 1_000_000
  }

  lemma RotationWhy(k: Keeper, t: int, d: int)
    ensures Rotation(k, t, d) == if TooLong(k, t, d) then 1 else if TooLate(k, t, d) then 2 else 0
  {
    if k.sessionDuration > 0 {
      QuotientBound(t - k.segmentId - d * MILLION, k.sessionDuration);
    }
  }

  lemma CheckReason(s: State, start: int, cur: int, d: int)
    requires s.keeper.segmentId != 0
    ensures var t := UpdateSegmentId(s, start, cur, d).0;
            var why := if cur == 0 then 3 else Rotation(s.keeper, cur, d);
            && t.closed == s.closed + (if why != 0 then [s.session.(endReason := why)] else [])
            && t.keeper.segmentId == if why != 0 then start else s.keeper.segmentId
  {
    hide Rotation, NameOf, NewLedger;
    assert s.closed + [] == s.closed;
  }

  /**
   The reason kept with a closed session: 3 when it was forced, else 1 for its length or 2 for the pause before the
   start.
   */
  lemma ReasonExactly(s: State, c: Command)
    requires Timed(s) && Clock(c) && |Step(s, c).closed| > |s.closed|
    ensures var t := Step(s, c);
            && |t.closed| == |s.closed| + 1
            && t.closed[|s.closed|].endReason ==
               (if !c.StartTime? || s.isForceSeg then 3 else if TooLong(s.keeper, c.t, s.lastTsDuration) then 1 else 2)
            && (c.StartTime? && !s.isForceSeg ==>
                  TooLong(s.keeper, c.t, s.lastTsDuration) || TooLate(s.keeper, c.t, s.lastTsDuration))
  {
    hide TsStart, UpdateSegmentId, Rotation, NameOf, Span.Length;
    match c
    case StartTime(t) =>
      StartReason(ForgetMeta(s), t);
      RotationWhy(s.keeper, t, s.lastTsDuration);
    case SegCommand(t) => CheckReason(s.(meta := s.meta && !s.oneShot), t, 0, 0);
    case SetMeta(_) => CheckReason(s.(isClr := false), s.firstSystime, 0, 0);
    case _ =>
  }

  lemma StartReason(s: State, t: int)
    requires Timed(s) && t > 0
    ensures var after := TsStart(s, t);
            var why := if s.isForceSeg then 3 else Rotation(s.keeper, t, s.lastTsDuration);
            && |after.closed| == |s.closed| + (if why != 0 then 1 else 0)
            && (why != 0 ==> after.closed[|s.closed|].endReason == why)
  {
    hide UpdateSegmentId, Rotation, NameOf;
    var s0 := s.(session := s.session.(audioGap := 0, videoGap := 0), isForceSeg := false);
    CheckReason(s0, t, 0, 0);
    CheckTimes(s0, t, 0, 0);
    var s1 := NoteStart(s, t);
    CheckReason(s1.(session := s1.session.(sequenceNumber := s1.session.sequenceNumber + 1)), t, t, s1.lastTsDuration);
    CheckReason(s1, t, t, s1.lastTsDuration);
  }

  // ---- how slices are numbered

  lemma CheckNumber(s: State, start: int, cur: int, d: int)
    requires s.keeper.segmentId != 0
    ensures var (t, report) := UpdateSegmentId(s, start, cur, d);
            && t.planType == s.planType && t.isForceSeg == s.isForceSeg
            && (if cur == 0 || Rotation(s.keeper, cur, d) != 0 then
                  |t.closed| == |s.closed| + 1 && t.session.sequenceNumber == 0 && report.start
                else
                  t.closed == s.closed && t.session.sequenceNumber == s.session.sequenceNumber && !report.start)
  {
    hide Rotation, NameOf, NewLedger;
  }

  /** A start gives its slice the next number of its session, or number 0 in a session it opens. */
  lemma StartNumber(s: State, t: int)
    requires Timed(s) && t > 0 && s.reportType == NO_REPORT
    ensures var after := TsStart(s, t);
            && after.planType == s.planType && !after.isForceSeg
            && |s.closed| <= |after.closed| <= |s.closed| + 1
            && (after.reportType.start <==> |after.closed| > |s.closed|)
            && after.session.sequenceNumber == if |after.closed| > |s.closed| then 0 else s.session.sequenceNumber + 1
  {
    hide UpdateSegmentId, Rotation, NameOf;
    var s0 := s.(session := s.session.(audioGap := 0, videoGap := 0), isForceSeg := false);
    CheckNumber(s0, t, 0, 0);
    CheckTimes(s0, t, 0, 0);
    var s1 := NoteStart(s, t);
    CheckNumber(s1.(session := s1.session.(sequenceNumber := s1.session.sequenceNumber + 1)), t, t, s1.lastTsDuration);
  }

  lemma EndNumber(s: State, t: int, span: Span)
    ensures var after := TsEnd(s, t, span);
            && after.closed == s.closed && after.reportType == s.reportType && after.planType == s.planType
            && after.session.sequenceNumber == s.session.sequenceNumber && after.isForceSeg == s.isForceSeg
  {
    hide Span.Length;
  }

  /** A slice that is sent as the first of its session has number 1 from then on. */
  lemma UploadNumber(s: State, accepted: bool)
    requires s.planType == 1
    ensures var t := BufferUpload(s, true, accepted);
            && t.closed == s.closed && t.reportType == NO_REPORT && t.planType == s.planType
            && t.isForceSeg == s.isForceSeg
            && t.session.sequenceNumber == if s.reportType.start then 1 else s.session.sequenceNumber
  {
    hide Settle, Span.Length;
  }

  datatype Slice = Slice(start: int, end: int, span: Span, accepted: bool)

  /** The commands of slices with bytes, one after the other. */
  function CommandsOf(slices: seq<Slice>): seq<Command> {
    if slices == [] then []
    else
      var x := slices[0];
      [StartTime(x.start), EndTime(x.end, x.span), Upload(true, x.accepted)] + CommandsOf(slices[1..])
  }

  lemma OneSlice(s: State, x: Slice)
    requires Timed(s) && x.start > 0 && x.end > 0 && s.reportType == NO_REPORT && s.planType == 1
    ensures var t := Run(s, [StartTime(x.start), EndTime(x.end, x.span), Upload(true, x.accepted)]);
            && Timed(t) && t.reportType == NO_REPORT && t.planType == 1
            && |s.closed| <= |t.closed| <= |s.closed| + 1
            && t.session.sequenceNumber == if |t.closed| > |s.closed| then 1 else s.session.sequenceNumber + 1
  {
    hide Run, Timed, TsStart, TsEnd, BufferUpload, Span.Length;
    var a, b, c := StartTime(x.start), EndTime(x.end, x.span), Upload(true, x.accepted);
    RunThree(s, a, b, c);
    var s0 := ForgetMeta(s);
    assert Timed(s0) && s0.reportType == s.reportType && s0.planType == s.planType && s0.closed == s.closed
        && s0.session == s.session by { ForgetTimed(s); }
    StartNumber(s0, x.start);
    StepInTime(s, a);
    var s1 := Step(s, a);
    EndNumber(s1, x.end, x.span);
    StepInTime(s1, b);
    UploadNumber(Step(s1, b), x.accepted);
    StepInTime(Step(s1, b), c);
  }

  lemma ForgetTimed(s: State)
    requires Timed(s)
    ensures Timed(ForgetMeta(s)) && ForgetMeta(s).session == s.session && ForgetMeta(s).reportType == s.reportType
    ensures ForgetMeta(s).planType == s.planType && ForgetMeta(s).closed == s.closed
  {
    hide NameOf;
  }

  /**
   The slices of a session are numbered one by one, whether they were accepted or not, as long as no session is
   opened.
   */
  lemma {:induction false} SlicesAreNumbered(s: State, slices: seq<Slice>)
    requires Timed(s) && s.reportType == NO_REPORT && s.planType == 1
    requires forall x <- slices :: x.start > 0 && x.end > 0
    ensures var t := Run(s, CommandsOf(slices));
            && |t.closed| >= |s.closed|
            && (|t.closed| == |s.closed| ==> t.session.sequenceNumber == s.session.sequenceNumber + |slices|)
    decreases |slices|
  {
    hide Step, Timed, Span.Length;
    if slices != [] {
      var x := slices[0];
      var first := [StartTime(x.start), EndTime(x.end, x.span), Upload(true, x.accepted)];
      OneSlice(s, x);
      SlicesAreNumbered(Run(s, first), slices[1..]);
      RunAppend(s, first, CommandsOf(slices[1..]));
    }
  }

  /** So the k-th slice of a session that opened with its first one gets number k. */
  lemma CountsFromOne(s: State, first: Slice, more: seq<Slice>)
    requires Timed(s) && s.reportType == NO_REPORT && s.planType == 1
    requires first.start > 0 && first.end > 0 && forall x <- more :: x.start > 0 && x.end > 0
    ensures var a := Run(s, CommandsOf([first]));
            var t := Run(s, CommandsOf([first] + more));
            |t.closed| == |a.closed| == |s.closed| + 1 ==> t.session.sequenceNumber == 1 + |more|
  {
    hide Run, Timed, Span.Length;
    var cs := [StartTime(first.start), EndTime(first.end, first.span), Upload(true, first.accepted)];
    assert ([first] + more)[1..] == more && [first][1..] == [];
    assert CommandsOf([first]) == cs + [] == cs && CommandsOf([first] + more) == cs + CommandsOf(more);
    OneSlice(s, first);
    SlicesAreNumbered(Run(s, cs), more);
    RunAppend(s, cs, CommandsOf(more));
  }

  // ---- what is to be reported

  /** The last number looked at is not ahead, and a session whose start is to be reported has counted nothing. */
  predicate NumbersFit(s: State) {
    s.keeper.segSeqNum <= s.session.sequenceNumber
    && (s.reportType.start ==> s.keeper.segSeqNum == s.session.sequenceNumber == 0)
  }

  lemma CheckFits(s: State, start: int, cur: int, d: int)
    requires s.keeper.segmentId != 0 && s.keeper.segSeqNum <= s.session.sequenceNumber
    ensures var (t, report) := UpdateSegmentId(s, start, cur, d);
            if cur == 0 || Rotation(s.keeper, cur, d) != 0 then
              report == NEW_SESSION && t.keeper.segSeqNum == t.session.sequenceNumber == 0
            else
              && t.session == s.session && t.keeper.segSeqNum == s.session.sequenceNumber
              && report == if s.keeper.sessionDuration > 0 && s.keeper.segSeqNum < s.session.sequenceNumber
                        then NEW_SLICE else NO_REPORT
  {
    hide Rotation, NameOf, NewLedger;
  }

  /** What a start finds behind the session forced in front of it. */
  lemma NoteFits(s: State, t: int)
    requires Timed(s) && t > 0 && NumbersFit(s)
    ensures var s1 := NoteStart(s, t);
            && s1.keeper.segmentId != 0 && NumbersFit(s1) && s1.keeper.sessionDuration == s.keeper.sessionDuration
            && (s.isForceSeg ==> s1.reportType == NEW_SESSION && |s1.closed| == |s.closed| + 1)
            && (!s.isForceSeg ==> s1.reportType == s.reportType && s1.closed == s.closed)
  {
    hide UpdateSegmentId, Rotation, NameOf;
    var s0 := s.(session := s.session.(audioGap := 0, videoGap := 0), isForceSeg := false);
    CheckFits(s0, t, 0, 0);
    CheckTimes(s0, t, 0, 0);
    CheckNumber(s0, t, 0, 0);
  }

  lemma StartFits(s: State, t: int)
    requires Timed(s) && t > 0 && NumbersFit(s)
    ensures NumbersFit(TsStart(s, t))
    ensures s.reportType == NO_REPORT ==>
              TsStart(s, t).reportType ==
              if |TsStart(s, t).closed| > |s.closed| then NEW_SESSION
              else if s.keeper.sessionDuration > 0 then NEW_SLICE else NO_REPORT
    ensures var opens := |TsStart(s, t).closed| > |s.closed|;
            && (TsStart(s, t).reportType.start <==> s.reportType.start || opens)
            && (TsStart(s, t).reportType.end <==> s.reportType.end || opens)
            && (s.reportType.seg && !s.isForceSeg ==> TsStart(s, t).reportType.seg)
  {
    hide UpdateSegmentId, Rotation, NameOf, NoteStart, Timed;
    NoteFits(s, t);
    var s1 := NoteStart(s, t);
    var counted := s1.(session := s1.session.(sequenceNumber := s1.session.sequenceNumber + 1));
    if s1.reportType == NO_REPORT {
      CheckFits(counted, t, t, s1.lastTsDuration);
      CheckNumber(counted, t, t, s1.lastTsDuration);
    } else {
      CheckFits(s1, t, t, s1.lastTsDuration);
      CheckNumber(s1, t, t, s1.lastTsDuration);
    }
  }

  lemma StepFits(s: State, c: Command)
    requires Timed(s) && Clock(c) && NumbersFit(s)
    ensures NumbersFit(Step(s, c))
  {
    hide TsStart, UpdateSegmentId, Rotation, NameOf, Span.Length, Settle;
    match c
    case StartTime(t) => StartFits(ForgetMeta(s), t);
    case SegCommand(t) => CheckFits(s.(meta := s.meta && !s.oneShot), t, 0, 0);
    case SetMeta(_) => CheckFits(s.(isClr := false), s.firstSystime, 0, 0);
    case _ =>
  }

  lemma {:induction false} RunFits(s: State, cs: seq<Command>)
    requires Timed(s) && NumbersFit(s) && forall c <- cs :: Clock(c)
    ensures Timed(Run(s, cs)) && NumbersFit(Run(s, cs))
    decreases |cs|
  {
    hide Step, Timed, NumbersFit, Clock;
    if cs != [] {
      StepInTime(s, cs[0]);
      StepFits(s, cs[0]);
      RunFits(Step(s, cs[0]), cs[1..]);
    }
  }

  /**
   Over every run, a start that opens a session is reported as the end of one and the start of another, beside what is
   still to be reported; with nothing to report before, any other start is reported as a new slice, as long as sessions
   have a length.
   */
  lemma StartReports(now: int, cs: seq<Command>, t: int)
    requires now > 0 && t > 0 && forall c <- cs :: Clock(c)
    ensures var s := Run(Initial(now), cs);
            var after := Step(s, StartTime(t));
            var opens := |after.closed| > |s.closed|;
            && (after.reportType.start <==> s.reportType.start || opens)
            && (after.reportType.end <==> s.reportType.end || opens)
            && (s.reportType == NO_REPORT ==>
                  after.reportType == if opens then Report(true, false, true)
                                      else Report(false, s.keeper.sessionDuration > 0, false))
  {
    hide Run, TsStart, Timed, Initial;
    FirstFits(now);
    RunFits(Initial(now), cs);
    var s := Run(Initial(now), cs);
    assert Timed(ForgetMeta(s)) && NumbersFit(ForgetMeta(s)) by { ForgetTimed(s); }
    StartFits(ForgetMeta(s), t);
  }

  lemma FirstFits(now: int)
    requires now > 0
    ensures Timed(Initial(now)) && NumbersFit(Initial(now))
  {
    hide NameOf;
    RotationInTime(now, []);
  }
}
