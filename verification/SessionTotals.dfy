/**
 All sessions of a run together: what their own fields add up to, and when a
 slice is entered in more than one of them.
 */
module SessionTotals {
  import opened TsUploader
  import opened SessionId
  import opened SessionAccounts

  function TotalOf(x: Session): Span {
    Span(x.totalAudio, x.totalVideo)
  }

  function AccOf(x: Session): Span {
    Span(x.accAudio, x.accVideo)
  }

  function Totals(closed: seq<Session>): Span {
    if closed == [] then ZERO else Totals(closed[..|closed| - 1]).Plus(TotalOf(closed[|closed| - 1]))
  }

  function Accs(closed: seq<Session>): Span {
    if closed == [] then ZERO else Accs(closed[..|closed| - 1]).Plus(AccOf(closed[|closed| - 1]))
  }

  /** nTotalSessionAudio/VideoDuration of every session, as it was when it closed or is now. */
  function AllTotals(s: State): Span {
    Totals(s.closed).Plus(TotalOf(s.session))
  }

  /** nAccSessionAudio/VideoDuration of every session. */
  function AllAccs(s: State): Span {
    Accs(s.closed).Plus(AccOf(s.session))
  }

  /** The durations a command brings. */
  function Announced(c: Command): Span {
    match c
    case EndTime(_, span) => span
    case DropTs(_, span) => span
    case _ => ZERO
  }

  /** The durations of a slice the command finds not uploaded. */
  function LostBy(s: State, c: Command): Span {
    match c
    case Upload(bytes, accepted) => if ShouldUpload(s, bytes) && accepted then ZERO else Under(s.ledger.pending)
    case DropTs(_, span) => span
    case _ => ZERO
  }

  /** A command that closes the session and opens the next one. */
  predicate Opens(s: State, c: Command) {
    |Step(s, c).closed| > |s.closed|
  }

  /** What a command enters once more: the slice under way, when it opens a session. */
  function Extra(s: State, c: Command): Span {
    if Opens(s, c) then Under(s.ledger.pending) else ZERO
  }

  function AnnouncedAll(cs: seq<Command>): Span {
    if cs == [] then ZERO else Announced(cs[0]).Plus(AnnouncedAll(cs[1..]))
  }

  function LostAll(s: State, cs: seq<Command>): Span
    decreases |cs|
  {
    if cs == [] then ZERO else LostBy(s, cs[0]).Plus(LostAll(Step(s, cs[0]), cs[1..]))
  }

  function ExtraAll(s: State, cs: seq<Command>): Span
    decreases |cs|
  {
    if cs == [] then ZERO else Extra(s, cs[0]).Plus(ExtraAll(Step(s, cs[0]), cs[1..]))
  }

  // ---- one command

  lemma HandTotals(s: State, start: int, reason: int)
    requires Books(s)
    ensures var t := HandNewSession(s, start, reason);
            && |t.closed| == |s.closed| + 1
            && AllTotals(t) == AllTotals(s).Plus(Under(s.ledger.pending))
            && AllAccs(t) == AllAccs(s).Plus(Under(s.ledger.pending))
  {
    hide Span.Length, NewLedger;
    var x := s.session.(endReason := reason);
    assert (s.closed + [x])[..|s.closed|] == s.closed;
    var y := HandNewSession(s, start, reason).session;
    assert TotalOf(y) == AccOf(y) == Under(s.ledger.pending);
  }

  lemma CheckTotals(s: State, start: int, cur: int, d: int)
    requires Books(s) && s.keeper.segmentId != 0
    ensures var t := UpdateSegmentId(s, start, cur, d).0;
            var opens := cur == 0 || Rotation(s.keeper, cur, d) != 0;
            var extra := if opens then Under(s.ledger.pending) else ZERO;
            && |t.closed| == |s.closed| + (if opens then 1 else 0)
            && AllTotals(t) == AllTotals(s).Plus(extra) && AllAccs(t) == AllAccs(s).Plus(extra)
  {
    hide Books, Rotation, HandNewSession, Totals, Accs;
    var s1 := s.(keeper := s.keeper.(segSeqNum := s.session.sequenceNumber, lastCheckTime := cur));
    SameBooks(s, s1);
    HandTotals(s, start, 3);
    HandTotals(s1, start, Rotation(s.keeper, cur, d));
  }

  lemma SegTotals(s: State, t: int)
    requires Books(s) && s.keeper.segmentId != 0
    ensures var after := SegTime(s, t);
            && |after.closed| == |s.closed| + 1
            && AllTotals(after) == AllTotals(s).Plus(Under(s.ledger.pending))
            && AllAccs(after) == AllAccs(s).Plus(Under(s.ledger.pending))
  {
    hide Books, UpdateSegmentId, Rotation, Totals, Accs;
    CheckTotals(s, t, 0, 0);
  }

  lemma NoteStartTotals(s: State, t: int)
    requires Books(s) && s.ledger.pending == Nothing && s.keeper.segmentId != 0
    ensures var s1 := NoteStart(s, t);
            && Books(s1) && s1.ledger.pending == Nothing && s1.lastTsDuration == s.lastTsDuration
            && |s1.closed| == |s.closed| + (if s.isForceSeg then 1 else 0)
            && AllTotals(s1) == AllTotals(s) && AllAccs(s1) == AllAccs(s)
            && if s.isForceSeg then s1.reportType == NEW_SESSION
               else s1.keeper == s.keeper && s1.reportType == s.reportType
  {
    hide UpdateSegmentId, SegTime, Totals, Accs;
    var s0 := s.(session := s.session.(audioGap := 0, videoGap := 0), isForceSeg := false);
    SegKeepsBooks(s0, t);
    SegTotals(s0, t);
    SegReports(s0, t);
  }

  lemma SegReports(s: State, t: int)
    requires s.keeper.segmentId != 0
    ensures SegTime(s, t).reportType == NEW_SESSION && SegTime(s, t).lastTsDuration == s.lastTsDuration
  {}

  /** A start enters nothing, and opens a session when it was asked to or the session is over. */
  lemma StartTotals(s: State, t: int)
    requires Books(s) && s.ledger.pending == Nothing && s.keeper.segmentId != 0 && t != 0
    ensures var after := TsStart(s, t);
            && |after.closed| == |s.closed|
               + (if s.isForceSeg || Rotation(s.keeper, t, s.lastTsDuration) != 0 then 1 else 0)
            && AllTotals(after) == AllTotals(s) && AllAccs(after) == AllAccs(s)
  {
    hide UpdateSegmentId, Rotation, NoteStart, Books, Totals, Accs;
    NoteStartTotals(s, t);
    var s1 := NoteStart(s, t);
    if !s.isForceSeg {
      var s2 := s1.(session := s1.session.(sequenceNumber := s1.session.sequenceNumber + 1));
      SameSums(s1, s2);
      CheckTotals(s2, t, t, s1.lastTsDuration);
      CheckTotals(s1, t, t, s1.lastTsDuration);
    }
  }

  /** The number of slices of a session is not in its books. */
  lemma SameSums(s: State, t: State)
    requires Books(s) && t == s.(session := s.session.(sequenceNumber := t.session.sequenceNumber))
    ensures Books(t) && AllTotals(t) == AllTotals(s) && AllAccs(t) == AllAccs(s)
  {}

  lemma EndTotals(s: State, t: int, span: Span)
    ensures var after := TsEnd(s, t, span);
            && after.closed == s.closed && AllTotals(after) == AllTotals(s).Plus(span)
            && AllAccs(after) == AllAccs(s).Plus(span)
  {
    hide Span.Length;
  }

  lemma UploadTotals(s: State, bytes: bool, accepted: bool)
    requires Books(s) && s.ledger.pending != Nothing
    ensures var t := BufferUpload(s, bytes, accepted);
            && t.closed == s.closed && AllTotals(t) == AllTotals(s)
            && AllAccs(t).Plus(LostBy(s, Upload(bytes, accepted))) == AllAccs(s)
  {
    hide Span.Length, Settle;
  }

  /** When a command closes a session: asked to, or at a start that was asked to or comes too late. */
  ghost predicate WillOpen(s: State, c: Command) {
    match c
    case SegCommand(_) => true
    case SetMeta(_) => !s.internalForce && !s.isForceSeg && s.firstSystime > 0 && s.session.sequenceNumber > 0
    case StartTime(t) => s.isForceSeg || Rotation(s.keeper, t, s.lastTsDuration) != 0
    case _ => false
  }

  lemma OpensExactly(s: State, c: Command)
    requires Books(s) && Timed(s) && Ordered(s.ledger, c) && Clock(c)
    ensures Opens(s, c) <==> WillOpen(s, c)
    ensures |Step(s, c).closed| == |s.closed| + if WillOpen(s, c) then 1 else 0
  {
    StepEffect(s, c);
  }

  /** A command enters what it brings, and enters the slice under way once more when it opens a session. */
  lemma StepConserves(s: State, c: Command)
    requires Books(s) && Timed(s) && Ordered(s.ledger, c) && Clock(c)
    ensures AllTotals(Step(s, c)) == AllTotals(s).Plus(Announced(c)).Plus(Extra(s, c))
    ensures AllAccs(Step(s, c)).Plus(LostBy(s, c)) == AllAccs(s).Plus(Announced(c)).Plus(Extra(s, c))
  {
    hide Step, WillOpen, LostBy, Announced, AllTotals, AllAccs;
    StepEffect(s, c);
  }

  lemma StepEffect(s: State, c: Command)
    requires Books(s) && Timed(s) && Ordered(s.ledger, c) && Clock(c)
    ensures var t := Step(s, c);
            var extra := if WillOpen(s, c) then Under(s.ledger.pending) else ZERO;
            && |t.closed| == |s.closed| + (if WillOpen(s, c) then 1 else 0)
            && AllTotals(t) == AllTotals(s).Plus(Announced(c)).Plus(extra)
            && AllAccs(t).Plus(LostBy(s, c)) == AllAccs(s).Plus(Announced(c)).Plus(extra)
  {
    hide Books, TsStart, TsEnd, BufferUpload, SegTime, OnSetMeta, Rotation, AllTotals, AllAccs, NameOf;
    match c
    case StartTime(t) => StartEffect(s, t);
    case EndTime(t, span) => EndTotals(s, t, span);
    case Upload(bytes, accepted) => UploadTotals(s, bytes, accepted);
    case DropTs(t, span) => DropTotals(s, t, span);
    case SegCommand(t) =>
      var s1 := s.(meta := s.meta && !s.oneShot);
      SameBooks(s, s1);
      SegTotals(s1, t);
      SameAll(s, s1);
    case SetMeta(once) => SetMetaTotals(s, once);
    case _ => SameAll(s, Step(s, c));
  }

  lemma StartEffect(s: State, t: int)
    requires Books(s) && s.ledger.pending == Nothing && s.keeper.segmentId != 0 && t != 0
    ensures var after := TsStart(ForgetMeta(s), t);
            && |after.closed| == |s.closed| + (if WillOpen(s, StartTime(t)) then 1 else 0)
            && AllTotals(after) == AllTotals(s) && AllAccs(after) == AllAccs(s) && Under(s.ledger.pending) == ZERO
  {
    hide Books, TsStart, Rotation, AllTotals, AllAccs;
    SameBooks(s, ForgetMeta(s));
    StartTotals(ForgetMeta(s), t);
    PendingOf(s);
    SameAll(s, ForgetMeta(s));
  }

  lemma SameAll(s: State, t: State)
    requires t.session == s.session && t.closed == s.closed
    ensures AllTotals(t) == AllTotals(s) && AllAccs(t) == AllAccs(s)
  {}

  lemma DropTotals(s: State, t: int, span: Span)
    requires Books(s) && s.ledger.pending == Nothing
    ensures var after := BufferUpload(TsEnd(s, t, span), false, false);
            && after.closed == s.closed && AllTotals(after) == AllTotals(s).Plus(span)
            && AllAccs(after).Plus(span) == AllAccs(s).Plus(span)
  {
    hide Books, TsEnd, BufferUpload, AllTotals, AllAccs;
    EndTotals(s, t, span);
    EndKeepsBooks(s, t, span);
    UploadTotals(TsEnd(s, t, span), false, false);
    assert Under(TsEnd(s, t, span).ledger.pending) == span;
  }

  lemma SetMetaTotals(s: State, once: bool)
    requires Books(s) && s.keeper.segmentId != 0
    ensures var t := OnSetMeta(s, once);
            var opens := WillOpen(s, SetMeta(once));
            var extra := if opens then Under(s.ledger.pending) else ZERO;
            && |t.closed| == |s.closed| + (if opens then 1 else 0)
            && AllTotals(t) == AllTotals(s).Plus(extra) && AllAccs(t) == AllAccs(s).Plus(extra)
  {
    hide Books, SegTime, Totals, Accs;
    SameBooks(s, s.(isClr := false));
    SegTotals(s.(isClr := false), s.firstSystime);
  }

  lemma PendingOf(s: State)
    ensures s.ledger.pending == Nothing ==> Under(s.ledger.pending) == ZERO
  {}

  // ---- over every run

  lemma SpanSums(a: Span, b: Span, c: Span)
    ensures a.Plus(ZERO) == a && ZERO.Plus(a) == a && a.Plus(b).Plus(c) == a.Plus(b.Plus(c)) && a.Plus(b) == b.Plus(a)
  {}

  /**
   Over every run: the durations in the fields of all sessions are those the commands brought, and those of a slice
   once more for every session that was opened while it was under way.
   */
  lemma {:induction false} RunConserves(s: State, cs: seq<Command>)
    requires Books(s) && Timed(s) && OrderedRun(s, cs) && forall c <- cs :: Clock(c)
    ensures AllTotals(Run(s, cs)) == AllTotals(s).Plus(AnnouncedAll(cs)).Plus(ExtraAll(s, cs))
    ensures AllAccs(Run(s, cs)).Plus(LostAll(s, cs)) == AllAccs(s).Plus(AnnouncedAll(cs)).Plus(ExtraAll(s, cs))
    decreases |cs|
  {
    hide Step, Books, Timed, Ordered, Announced, LostBy, Extra, AllTotals, AllAccs, Clock;
    if cs != [] {
      StepKeepsBooks(s, cs[0]);
      StepInTime(s, cs[0]);
      StepConserves(s, cs[0]);
      RunConserves(Step(s, cs[0]), cs[1..]);
    }
  }

  predicate Positive(s: Span) {
    s.audio >= 0 && s.video >= 0
  }

  predicate NoLess(c: Command) {
    Positive(Announced(c))
  }

  /** No session is opened while a slice with a duration is under way. */
  ghost predicate NothingDoubled(s: State, cs: seq<Command>)
    decreases |cs|
  {
    cs == [] || ((WillOpen(s, cs[0]) ==> Under(s.ledger.pending) == ZERO) && NothingDoubled(Step(s, cs[0]), cs[1..]))
  }

  /** Each slice is entered once over the whole run exactly when no session was opened while one was under way. */
  lemma RunEntersOnceExactly(s: State, cs: seq<Command>)
    requires Books(s) && Timed(s) && OrderedRun(s, cs) && forall c <- cs :: Clock(c) && NoLess(c)
    requires Positive(Under(s.ledger.pending))
    ensures AllTotals(Run(s, cs)) == AllTotals(s).Plus(AnnouncedAll(cs)) <==> NothingDoubled(s, cs)
  {
    hide Run, OrderedRun, Books, Timed, Clock, NoLess, NothingDoubled, ExtraAll, AnnouncedAll, AllTotals, AllAccs;
    RunConserves(s, cs);
    ExtraExactly(s, cs);
  }

  lemma {:induction false} ExtraExactly(s: State, cs: seq<Command>)
    requires Books(s) && Timed(s) && OrderedRun(s, cs) && forall c <- cs :: Clock(c) && NoLess(c)
    requires Positive(Under(s.ledger.pending))
    ensures Positive(ExtraAll(s, cs)) && (ExtraAll(s, cs) == ZERO <==> NothingDoubled(s, cs))
    decreases |cs|
  {
    hide Step, Books, Timed, Ordered, NoLess, Clock, Opens, WillOpen;
    if cs != [] {
      StepKeepsBooks(s, cs[0]);
      StepInTime(s, cs[0]);
      OpensExactly(s, cs[0]);
      StepPending(s, cs[0]);
      assert NoLess(cs[0]) by { assert cs[0] in cs; }
      assert Positive(Under(Step(s, cs[0]).ledger.pending)) by { PendingIsAnnounced(s, cs[0]); }
      ExtraExactly(Step(s, cs[0]), cs[1..]);
    }
  }

  /** What a command makes of the slice under way. */
  function After(p: Pending, c: Command): Pending {
    match c
    case EndTime(_, span) => Ended(span)
    case Upload(_, _) => Nothing
    case DropTs(_, _) => Nothing
    case _ => p
  }

  lemma StepPending(s: State, c: Command)
    ensures Step(s, c).ledger.pending == After(s.ledger.pending, c)
  {
    hide UpdateSegmentId, Span.Length, Restore;
    match c
    case StartTime(t) =>
      var s0 := ForgetMeta(s);
      var s1 := NoteStart(s0, t);
      CheckPending(s0.(session := s0.session.(audioGap := 0, videoGap := 0), isForceSeg := false), t, 0, 0);
      CheckPending(s1.(session := s1.session.(sequenceNumber := s1.session.sequenceNumber + 1)), t, t,
                   s1.lastTsDuration);
      CheckPending(s1, t, t, s1.lastTsDuration);
    case SegCommand(t) => CheckPending(s.(meta := s.meta && !s.oneShot), t, 0, 0);
    case SetMeta(_) => CheckPending(s.(isClr := false), s.firstSystime, 0, 0);
    case _ =>
  }

  lemma CheckPending(s: State, start: int, cur: int, d: int)
    ensures UpdateSegmentId(s, start, cur, d).0.ledger.pending == s.ledger.pending
  {
    hide Rotation, UpdateSessionId;
  }

  lemma PendingIsAnnounced(s: State, c: Command)
    requires Positive(Under(s.ledger.pending)) && NoLess(c)
    ensures Positive(Under(Step(s, c).ledger.pending))
  {
    hide Step;
    StepPending(s, c);
  }

  // ---- one slice

  /** What can reach the worker between an end and its upload. */
  predicate Between(c: Command) {
    c.SegCommand? || c.SetMeta? || c.ClrMeta? || c.SetPlan? || c.Configure?
  }

  function Times(span: Span, n: nat): Span {
    if n == 0 then ZERO else Times(span, n - 1).Plus(span)
  }

  ghost predicate NoneOpens(s: State, cs: seq<Command>)
    decreases |cs|
  {
    cs == [] || (!WillOpen(s, cs[0]) && NoneOpens(Step(s, cs[0]), cs[1..]))
  }

  lemma {:induction false} TimesExactly(span: Span, n: nat)
    ensures n > 0 ==> SameSign(Times(span, n).audio, span.audio) && SameSign(Times(span, n).video, span.video)
    ensures Times(span, n) == ZERO <==> n == 0 || span == ZERO
  {
    if n > 1 {
      TimesExactly(span, n - 1);
    }
  }

  predicate SameSign(a: int, b: int) {
    (a > 0 <==> b > 0) && (a < 0 <==> b < 0)
  }

  /** The slice under way is entered once more by every session opened over it. */
  lemma {:induction false} BetweenTotals(s: State, cs: seq<Command>, span: Span)
    requires Books(s) && Timed(s) && s.ledger.pending == Ended(span) && forall c <- cs :: Between(c) && Clock(c)
    ensures var t := Run(s, cs);
            && Books(t) && Timed(t) && t.ledger.pending == Ended(span) && |t.closed| >= |s.closed|
            && AllTotals(t) == AllTotals(s).Plus(Times(span, |t.closed| - |s.closed|))
            && (|t.closed| == |s.closed| <==> NoneOpens(s, cs))
    decreases |cs|
  {
    hide Step, Books, Timed, Clock, Opens, WillOpen, AllTotals, AllAccs;
    if cs != [] {
      var c := cs[0];
      assert Between(c) by { assert c in cs; }
      var s1 := Step(s, c);
      StepKeepsBooks(s, c);
      StepInTime(s, c);
      OpensExactly(s, c);
      StepConserves(s, c);
      StepPending(s, c);
      BetweenTotals(s1, cs[1..], span);
      var n := |Run(s1, cs[1..]).closed| - |s1.closed|;
      SpanSums(AllTotals(s), span, Times(span, n));
      SpanSums(Times(span, n), span, ZERO);
    }
  }

  lemma {:induction false} RunAppend(s: State, a: seq<Command>, b: seq<Command>)
    ensures Run(s, a + b) == Run(Run(s, a), b)
    decreases |a|
  {
    hide Step;
    if a == [] {
      assert a + b == b;
    } else {
      assert (a + b)[1..] == a[1..] + b;
      RunAppend(Step(s, a[0]), a[1..], b);
    }
  }

  lemma RunOne(s: State, c: Command)
    ensures Run(s, [c]) == Step(s, c)
  {
    hide Step;
    assert [c][1..] == [];
  }

  /**
   A slice is entered once for itself and once for every session opened between its end and its upload: so exactly
   once if and only if no command in between opens one, or the slice has no duration.
   */
  lemma EnteredOnceExactly(s: State, t: int, span: Span, between: seq<Command>, bytes: bool, accepted: bool)
    requires Books(s) && Timed(s) && s.ledger.pending == Nothing && t > 0
    requires forall c <- between :: Between(c) && Clock(c)
    ensures var u := Run(s, [EndTime(t, span)] + (between + [Upload(bytes, accepted)]));
            && |u.closed| >= |s.closed| && AllTotals(u) == AllTotals(s).Plus(Times(span, 1 + |u.closed| - |s.closed|))
            && (|u.closed| == |s.closed| <==> NoneOpens(Step(s, EndTime(t, span)), between))
            && (AllTotals(u) == AllTotals(s).Plus(span)
                <==> NoneOpens(Step(s, EndTime(t, span)), between) || span == ZERO)
  {
    hide Run, Step, Books, Timed, Clock, AllTotals, AllAccs, NoneOpens, Between, Times, Span.Plus;
    var s1 := Step(s, EndTime(t, span));
    EndEffect(s, t, span);
    BetweenTotals(s1, between, span);
    var s2 := Run(s1, between);
    UploadEffect(s2, bytes, accepted);
    RunSlice(s, EndTime(t, span), between, Upload(bytes, accepted));
    OnceMore(AllTotals(s), span, |s2.closed| - |s.closed|);
  }

  lemma OnceMore(a: Span, span: Span, n: nat)
    ensures a.Plus(span).Plus(Times(span, n)) == a.Plus(Times(span, 1 + n))
    ensures a.Plus(Times(span, 1 + n)) == a.Plus(span) <==> n == 0 || span == ZERO
  {
    TimesExactly(span, n);
  }

  lemma EndEffect(s: State, t: int, span: Span)
    requires Books(s) && Timed(s) && s.ledger.pending == Nothing && t > 0
    ensures var s1 := Step(s, EndTime(t, span));
            && Books(s1) && Timed(s1) && s1.ledger.pending == Ended(span) && s1.closed == s.closed
            && AllTotals(s1) == AllTotals(s).Plus(span)
  {
    hide Books, Timed, TsEnd, AllTotals, AllAccs;
    StepKeepsBooks(s, EndTime(t, span));
    StepInTime(s, EndTime(t, span));
    EndTotals(s, t, span);
    StepPending(s, EndTime(t, span));
  }

  lemma UploadEffect(s: State, bytes: bool, accepted: bool)
    requires Books(s) && s.ledger.pending != Nothing
    ensures var t := Step(s, Upload(bytes, accepted)); t.closed == s.closed && AllTotals(t) == AllTotals(s)
  {
    hide Books, BufferUpload, AllTotals, AllAccs;
    UploadTotals(s, bytes, accepted);
  }

  lemma RunSlice(s: State, e: Command, between: seq<Command>, up: Command)
    ensures Run(s, [e] + (between + [up])) == Step(Run(Step(s, e), between), up)
  {
    hide Run, Step;
    RunAppend(s, [e], between + [up]);
    RunAppend(Step(s, e), between, [up]);
    RunOne(s, e);
    RunOne(Run(Step(s, e), between), up);
  }

  /** Whether meta data is set before any is cleared. */
  predicate SetsFirst(cs: seq<Command>) {
    cs != [] && (cs[0].SetMeta? || (!cs[0].ClrMeta? && SetsFirst(cs[1..])))
  }

  /**
   From other threads only the first change of the meta data opens a session, and only as long as nothing was forced
   before.
   */
  lemma {:induction false} OthersOpenExactly(s: State, cs: seq<Command>)
    requires forall c <- cs :: Between(c) && !c.SegCommand?
    ensures NoneOpens(s, cs) <==>
              !(!s.internalForce && !s.isForceSeg && s.firstSystime > 0 && s.session.sequenceNumber > 0
                && SetsFirst(cs))
    decreases |cs|
  {
    hide SegTime;
    if cs != [] {
      assert cs[0] in cs;
      OthersOpenExactly(Step(s, cs[0]), cs[1..]);
      if cs[0].SetMeta? {
        MetaStaysForced(s, cs[0].once);
      }
    }
  }

  lemma MetaStaysForced(s: State, once: bool)
    ensures Step(s, SetMeta(once)).internalForce
  {
    hide SegTime;
  }

  /**
   For any commands other threads push between the end of a slice and its upload: the slice is entered once exactly when
   it has no duration, a session was forced before, no slice is counted in its session yet, or none of them sets meta
   data before one clears it.
   */
  lemma OnceUnlessMetaIsSet(s: State, t: int, span: Span, between: seq<Command>, bytes: bool, accepted: bool)
    requires Books(s) && Timed(s) && s.ledger.pending == Nothing && t > 0
    requires forall c <- between :: Between(c) && !c.SegCommand?
    ensures var u := Run(s, [EndTime(t, span)] + (between + [Upload(bytes, accepted)]));
            AllTotals(u) == AllTotals(s).Plus(span) <==>
              span == ZERO || s.internalForce || s.isForceSeg || s.session.sequenceNumber <= 0 || !SetsFirst(between)
  {
    hide Run, Books, Timed, AllTotals, AllAccs, NoneOpens, SetsFirst;
    EndFlags(s, t, span);
    EnteredOnceExactly(s, t, span, between, bytes, accepted);
    OthersOpenExactly(Step(s, EndTime(t, span)), between);
  }

  lemma EndFlags(s: State, t: int, span: Span)
    requires t > 0
    ensures var s1 := Step(s, EndTime(t, span));
            && s1.firstSystime > 0 && s1.internalForce == s.internalForce && s1.isForceSeg == s.isForceSeg
            && s1.session.sequenceNumber == s.session.sequenceNumber
  {
    hide Span.Length;
  }

  /**
   Meta data set between the end of a slice and its upload enters the slice in two sessions, in total and accumulated.
   */
  lemma EnteredTwice(s: State, t: int, v: int, once: bool)
    requires Books(s) && Timed(s) && s.ledger.pending == Nothing && t > 0 && s.planType == PLAN_24
    requires !s.internalForce && !s.isForceSeg && s.session.sequenceNumber > 0
    ensures var u := Run(s, [EndTime(t, Span(0, v)), SetMeta(once), Upload(true, true)]);
            && |u.closed| == |s.closed| + 1 && u.closed[..|s.closed|] == s.closed
            && u.closed[|s.closed|].totalVideo == s.session.totalVideo + v
            && u.closed[|s.closed|].accVideo == s.session.accVideo + v
            && u.session.totalVideo == u.session.accVideo == v
  {
    hide Books, NewLedger, Settle;
    RunThree(s, EndTime(t, Span(0, v)), SetMeta(once), Upload(true, true));
    assert s.session.videoGap == 0 by { GapIsUnder(s); }
  }

  lemma GapIsUnder(s: State)
    requires Books(s)
    ensures s.session.videoGap == Under(s.ledger.pending).video
  {
    hide Span.Length;
  }

  /** So it can be with the first slice after the worker started. */
  lemma FirstSliceTwice(now: int, v: int)
    requires now > 0
    ensures var u := Run(Initial(now), [SetPlan(PLAN_24), StartTime(now + 1)]
                                       + [EndTime(now + 2, Span(0, v)), SetMeta(true), Upload(true, true)]);
            |u.closed| == 1 && u.closed[0].totalVideo == v && u.session.totalVideo == v
  {
    hide Run, Initial, Step, Books, Timed;
    FirstStart(now);
    RunTwo(Initial(now), SetPlan(PLAN_24), StartTime(now + 1));
    var s := Run(Initial(now), [SetPlan(PLAN_24), StartTime(now + 1)]);
    RunAppend(Initial(now), [SetPlan(PLAN_24), StartTime(now + 1)],
              [EndTime(now + 2, Span(0, v)), SetMeta(true), Upload(true, true)]);
    EnteredTwice(s, now + 2, v, true);
  }

  lemma RunTwo(s: State, a: Command, b: Command)
    ensures Run(s, [a, b]) == Step(Step(s, a), b)
  {
    hide Run, Step;
    assert [a, b] == [a] + [b];
    RunAppend(s, [a], [b]);
    RunOne(s, a);
    RunOne(Step(s, a), b);
  }

  lemma FirstStart(now: int)
    requires now > 0
    ensures var s := Step(Step(Initial(now), SetPlan(PLAN_24)), StartTime(now + 1));
            && Books(s) && Timed(s) && s.ledger.pending == Nothing && s.planType == PLAN_24 && s.closed == []
            && !s.internalForce && !s.isForceSeg && s.session.sequenceNumber == 1 && s.session.totalVideo == 0
  {
    hide NameOf, Books;
    InitialBooks(now);
    var s0 := Initial(now);
    StepKeepsBooks(s0, SetPlan(PLAN_24));
    StepKeepsBooks(Step(s0, SetPlan(PLAN_24)), StartTime(now + 1));
  }

  // ---- starts of one session

  /** Between two starts the last check moves only with a new session. */
  lemma {:induction false} LastCheckStays(s: State, cs: seq<Command>)
    requires Books(s) && Timed(s) && OrderedRun(s, cs) && forall c <- cs :: Clock(c) && !c.StartTime?
    ensures var t := Run(s, cs);
            && Books(t) && Timed(t) && |t.closed| >= |s.closed|
            && (|t.closed| == |s.closed| ==> t.keeper.lastCheckTime == s.keeper.lastCheckTime)
    decreases |cs|
  {
    hide Step, Books, Timed, Ordered, Clock, Opens, WillOpen;
    if cs != [] {
      assert cs[0] in cs;
      StepKeepsBooks(s, cs[0]);
      StepInTime(s, cs[0]);
      OpensExactly(s, cs[0]);
      if !WillOpen(s, cs[0]) {
        KeeperStays(s, cs[0]);
      }
      LastCheckStays(Step(s, cs[0]), cs[1..]);
    }
  }

  lemma KeeperStays(s: State, c: Command)
    requires Timed(s) && Clock(c) && !c.StartTime? && !WillOpen(s, c)
    ensures Step(s, c).keeper.lastCheckTime == s.keeper.lastCheckTime
  {
    hide SegTime, TsEnd, BufferUpload;
    match c
    case EndTime(t, span) => EndTimed(s, t, span);
    case Upload(bytes, accepted) => UploadTimed(s, bytes, accepted);
    case DropTs(t, span) =>
      EndTimed(s, t, span);
      UploadTimed(TsEnd(s, t, span), false, false);
    case _ =>
  }

  /** Two starts of one session in a row are closer than the timeout and the slice between them. */
  lemma ConsecutiveStarts(s: State, t1: int, between: seq<Command>, t2: int)
    requires Books(s) && Timed(s) && Ordered(s.ledger, StartTime(t1)) && t1 > 0 && t2 > 0
    requires OrderedRun(Step(s, StartTime(t1)), between) && forall c <- between :: Clock(c) && !c.StartTime?
    ensures var u := Run(Step(s, StartTime(t1)), between);
            Ordered(u.ledger, StartTime(t2)) && |Step(u, StartTime(t2)).closed| == |Step(s, StartTime(t1)).closed|
            && u.keeper.sessionDuration > 0 && u.keeper.sessionTimeout > 0 ==>
              t2 - t1 < (u.keeper.sessionTimeout + u.lastTsDuration) * MILLION
  {
    hide Run, OrderedRun, Books, Timed, TsStart, Opens, Rotation;
    var s1 := Step(s, StartTime(t1));
    StepKeepsBooks(s, StartTime(t1));
    StepInTime(s, StartTime(t1));
    LastCheckStays(s1, between);
    var u := Run(s1, between);
    if Ordered(u.ledger, StartTime(t2)) && u.keeper.sessionDuration > 0 {
      OpensExactly(u, StartTime(t2));
      RotationExactly(u.keeper, t2, u.lastTsDuration);
    }
  }
}
