/**
 Which slices are uploaded and which starts are forced, told from the commands
 that came before: the plan, the meta data that is set, used up and cleared.
 */
module SessionUploads {
  import opened TsUploader
  import opened SessionAccounts
  import opened SessionTotals

  // ---- what the commands so far say

  /** The plan set last; the worker starts with the one that needs meta data. */
  function Plan(cs: seq<Command>): int {
    if cs == [] then 0
    else if cs[|cs| - 1].SetPlan? then cs[|cs| - 1].plan
    else Plan(cs[..|cs| - 1])
  }

  /** A slice goes, or a session is forced: one-shot meta data is used up. */
  predicate UsesUp(c: Command) {
    c.Upload? || c.DropTs? || c.SegCommand?
  }

  predicate ClearedBetween(cs: seq<Command>, i: nat, k: nat) {
    exists j :: i < j < k <= |cs| && cs[j].ClrMeta?
  }

  /**
   Meta data set by command i is still there: it was not replaced; if it was for one slice, or cleared, no slice has
   used it up since; and no slice has started since it was cleared.
   */
  predicate KeptFrom(cs: seq<Command>, i: nat) {
    && i < |cs| && cs[i].SetMeta?
    && forall j :: i < j < |cs| ==>
         && !cs[j].SetMeta?
         && (UsesUp(cs[j]) ==> !cs[i].once && !ClearedBetween(cs, i, j))
         && (cs[j].StartTime? ==> !ClearedBetween(cs, i, j))
  }

  ghost predicate MetaHeld(cs: seq<Command>) {
    exists i: nat :: KeptFrom(cs, i)
  }

  /** Meta data was set or cleared since the last slice went. */
  predicate Meddled(cs: seq<Command>) {
    cs != [] &&
    match cs[|cs| - 1]
    case SetMeta(_) => true
    case ClrMeta => true
    case Upload(_, _) => false
    case DropTs(_, _) => false
    case _ => Meddled(cs[..|cs| - 1])
  }

  /** A slice started, or ended, since the last slice went. */
  predicate UnderWay(cs: seq<Command>) {
    cs != [] &&
    match cs[|cs| - 1]
    case StartTime(_) => true
    case EndTime(_, _) => true
    case Upload(_, _) => false
    case DropTs(_, _) => false
    case _ => UnderWay(cs[..|cs| - 1])
  }

  /**
   The next start is to begin a session: meta data was set between slices, or cleared during one, and nothing before.
   */
  predicate Forced(cs: seq<Command>) {
    cs != [] &&
    var before := cs[..|cs| - 1];
    match cs[|cs| - 1]
    case StartTime(_) => false
    case SetMeta(_) => Forced(before) || (!Meddled(before) && !UnderWay(before))
    case ClrMeta => Forced(before) || (!Meddled(before) && UnderWay(before))
    case _ => Forced(before)
  }

  // ---- the fields are what the commands say

  ghost predicate MetaAgrees(s: State, cs: seq<Command>) {
    && (s.meta <==> MetaHeld(cs))
    && (s.meta ==> exists i: nat :: HeldBy(s, cs, i))
  }

  ghost predicate HeldBy(s: State, cs: seq<Command>, i: nat) {
    && KeptFrom(cs, i) && (s.oneShot <==> cs[i].once || ClearedBetween(cs, i, |cs|))
    && (s.isClr <==> ClearedBetween(cs, i, |cs|))
  }

  predicate FlagsAgree(s: State, cs: seq<Command>) {
    && s.planType == Plan(cs) && (s.internalForce <==> Meddled(cs)) && (s.isForceSeg <==> Forced(cs))
    && (s.firstSystime > 0 <==> UnderWay(cs)) && s.firstSystime >= 0
  }

  lemma FlagsSnoc(cs: seq<Command>, c: Command)
    ensures var all := cs + [c];
            && Plan(all) == (if c.SetPlan? then c.plan else Plan(cs))
            && (Meddled(all) <==> c.SetMeta? || c.ClrMeta? || (!c.Upload? && !c.DropTs? && Meddled(cs)))
            && (UnderWay(all) <==> c.StartTime? || c.EndTime? || (!c.Upload? && !c.DropTs? && UnderWay(cs)))
            && (Forced(all) <==>
                  !c.StartTime? && (|| Forced(cs)
                                    || (c.SetMeta? && !Meddled(cs) && !UnderWay(cs))
                                    || (c.ClrMeta? && !Meddled(cs) && UnderWay(cs))))
  {
    assert (cs + [c])[..|cs|] == cs;
  }

  /** A session check leaves what the commands say alone. */
  lemma CheckFlags(s: State, start: int, cur: int, d: int)
    ensures var t := UpdateSegmentId(s, start, cur, d).0;
            && t.planType == s.planType && t.internalForce == s.internalForce && t.isForceSeg == s.isForceSeg
            && t.firstSystime == s.firstSystime && t.meta == s.meta && t.oneShot == s.oneShot && t.isClr == s.isClr
  {
    hide Rotation, UpdateSessionId;
  }

  lemma SegFlags(s: State, cur: int)
    ensures var t := SegTime(s, cur);
            && t.planType == s.planType && t.internalForce == s.internalForce && t.isForceSeg == s.isForceSeg
            && t.firstSystime == s.firstSystime && t.meta == s.meta && t.oneShot == s.oneShot && t.isClr == s.isClr
  {
    hide UpdateSegmentId;
    CheckFlags(s, cur, 0, 0);
  }

  lemma StartFlags(s: State, t: int)
    ensures var after := TsStart(s, t);
            && after.planType == s.planType && after.internalForce == s.internalForce && !after.isForceSeg
            && after.firstSystime == t && after.meta == s.meta && after.oneShot == s.oneShot && after.isClr == s.isClr
  {
    hide UpdateSegmentId, SegTime;
    SegFlags(s.(session := s.session.(audioGap := 0, videoGap := 0), isForceSeg := false), t);
    var s1 := NoteStart(s, t);
    CheckFlags(s1.(session := s1.session.(sequenceNumber := s1.session.sequenceNumber + 1)), t, t, s1.lastTsDuration);
    CheckFlags(s1, t, t, s1.lastTsDuration);
  }

  /** A slice that went: what is left of the flags. */
  lemma UploadFlags(s: State, bytes: bool, accepted: bool)
    ensures var t := BufferUpload(s, bytes, accepted);
            && t.planType == s.planType && !t.internalForce && t.isForceSeg == s.isForceSeg && t.firstSystime == 0
            && (t.meta <==> s.meta && !s.oneShot) && t.oneShot == s.oneShot && t.isClr == s.isClr
  {
    hide Settle, Span.Length;
  }

  lemma EndFlagsToo(s: State, t: int, span: Span)
    ensures var after := TsEnd(s, t, span);
            && after.planType == s.planType && after.internalForce == s.internalForce
            && after.isForceSeg == s.isForceSeg
            && after.meta == s.meta && after.oneShot == s.oneShot && after.isClr == s.isClr
            && after.firstSystime == if s.firstSystime <= 0 then t else s.firstSystime
  {
    hide Span.Length;
  }

  lemma StepFlags(s: State, cs: seq<Command>, c: Command)
    requires FlagsAgree(s, cs) && Clock(c)
    ensures FlagsAgree(Step(s, c), cs + [c])
  {
    hide TsStart, TsEnd, BufferUpload, SegTime, Plan, Meddled, UnderWay, Forced;
    FlagsSnoc(cs, c);
    match c
    case StartTime(t) => StartFlags(ForgetMeta(s), t);
    case EndTime(t, span) => EndFlagsToo(s, t, span);
    case Upload(bytes, accepted) => UploadFlags(s, bytes, accepted);
    case DropTs(t, span) =>
      EndFlagsToo(s, t, span);
      UploadFlags(TsEnd(s, t, span), false, false);
    case SegCommand(t) => SegFlags(s.(meta := s.meta && !s.oneShot), t);
    case SetMeta(once) => SegFlags(s.(isClr := false), s.firstSystime);
    case _ =>
  }

  /** What becomes of the meta data, command by command. */
  lemma StepMeta(s: State, c: Command)
    ensures var t := Step(s, c);
            match c
            case SetMeta(once) => t.meta && t.oneShot == once && !t.isClr
            case ClrMeta => t.meta == s.meta && (s.meta ==> t.oneShot) && t.isClr
            case StartTime(_) =>
              && (t.meta <==> s.meta && !(s.isClr && s.oneShot))
              && (t.meta ==> t.oneShot == s.oneShot && t.isClr == s.isClr)
            case Upload(_, _) => (t.meta <==> s.meta && !s.oneShot) && t.oneShot == s.oneShot && t.isClr == s.isClr
            case DropTs(_, _) => (t.meta <==> s.meta && !s.oneShot) && t.oneShot == s.oneShot && t.isClr == s.isClr
            case SegCommand(_) => (t.meta <==> s.meta && !s.oneShot) && t.oneShot == s.oneShot && t.isClr == s.isClr
            case _ => t.meta == s.meta && t.oneShot == s.oneShot && t.isClr == s.isClr
  {
    hide TsStart, TsEnd, BufferUpload, SegTime;
    match c
    case StartTime(t) => StartFlags(ForgetMeta(s), t);
    case EndTime(t, span) => EndFlagsToo(s, t, span);
    case Upload(bytes, accepted) => UploadFlags(s, bytes, accepted);
    case DropTs(t, span) =>
      EndFlagsToo(s, t, span);
      UploadFlags(TsEnd(s, t, span), false, false);
    case SegCommand(t) => SegFlags(s.(meta := s.meta && !s.oneShot), t);
    case SetMeta(once) => SegFlags(s.(isClr := false), s.firstSystime);
    case _ =>
  }

  /** Whether meta data set by command i survives one command more. */
  lemma KeptSnoc(cs: seq<Command>, c: Command, i: nat)
    requires i < |cs|
    ensures KeptFrom(cs + [c], i) <==>
              && KeptFrom(cs, i) && !c.SetMeta?
              && (UsesUp(c) ==> !cs[i].once && !ClearedBetween(cs, i, |cs|))
              && (c.StartTime? ==> !ClearedBetween(cs, i, |cs|))
    ensures ClearedBetween(cs + [c], i, |cs| + 1) <==> ClearedBetween(cs, i, |cs|) || c.ClrMeta?
  {
    var all := cs + [c];
    forall k: nat | k <= |cs|
      ensures ClearedBetween(all, i, k) <==> ClearedBetween(cs, i, k)
    {
      SameCleared(cs, c, i, k);
    }
    assert all[|cs|] == c;
    if ClearedBetween(cs, i, |cs|) {
      var j :| i < j < |cs| && cs[j].ClrMeta?;
      assert all[j].ClrMeta?;
    }
    if KeptFrom(all, i) {
      forall j | i < j < |cs|
        ensures !cs[j].SetMeta? && (UsesUp(cs[j]) ==> !cs[i].once && !ClearedBetween(cs, i, j))
        ensures cs[j].StartTime? ==> !ClearedBetween(cs, i, j)
      {
        assert all[j] == cs[j];
      }
    }
  }

  lemma SameCleared(cs: seq<Command>, c: Command, i: nat, k: nat)
    requires k <= |cs|
    ensures ClearedBetween(cs + [c], i, k) <==> ClearedBetween(cs, i, k)
  {
    var all := cs + [c];
    if ClearedBetween(cs, i, k) {
      var j :| i < j < k && cs[j].ClrMeta?;
      assert all[j].ClrMeta?;
    }
    if ClearedBetween(all, i, k) {
      var j :| i < j < k && all[j].ClrMeta?;
      assert cs[j].ClrMeta?;
    }
  }

  lemma NewMeta(cs: seq<Command>, c: Command)
    requires c.SetMeta?
    ensures KeptFrom(cs + [c], |cs|) && !ClearedBetween(cs + [c], |cs|, |cs| + 1)
  {}

  lemma OneKept(cs: seq<Command>, i: nat, j: nat)
    requires KeptFrom(cs, i) && KeptFrom(cs, j)
    ensures i == j
  {
    assert cs[i].SetMeta? && cs[j].SetMeta?;
  }

  lemma StepMetaAgrees(s: State, cs: seq<Command>, c: Command)
    requires MetaAgrees(s, cs)
    ensures MetaAgrees(Step(s, c), cs + [c])
  {
    hide Step, KeptFrom, ClearedBetween;
    StepMeta(s, c);
    var t, all := Step(s, c), cs + [c];
    if c.SetMeta? {
      NewMeta(cs, c);
      assert all[|cs|] == c && HeldBy(t, all, |cs|);
    } else if s.meta {
      var i: nat :| HeldBy(s, cs, i);
      assert i < |cs| && cs[i].SetMeta? by { Kept(cs, i); }
      KeptSnoc(cs, c, i);
      assert all[i] == cs[i];
      assert t.meta ==> HeldBy(t, all, i);
      if MetaHeld(all) {
        var k: nat :| KeptFrom(all, k);
        StillKept(cs, c, k);
        OneKept(cs, i, k);
      }
      assert KeptFrom(all, i) ==> MetaHeld(all);
    } else if MetaHeld(all) {
      var k: nat :| KeptFrom(all, k);
      StillKept(cs, c, k);
    }
  }

  lemma Kept(cs: seq<Command>, i: nat)
    requires KeptFrom(cs, i)
    ensures i < |cs| && cs[i].SetMeta?
  {}

  lemma StillKept(cs: seq<Command>, c: Command, k: nat)
    requires KeptFrom(cs + [c], k) && !c.SetMeta?
    ensures k < |cs| && KeptFrom(cs, k)
  {
    hide KeptFrom, ClearedBetween;
    Kept(cs + [c], k);
    assert k != |cs|;
    KeptSnoc(cs, c, k);
  }

  // ---- over every run

  lemma RunSnoc(s: State, cs: seq<Command>, c: Command)
    ensures Run(s, cs + [c]) == Step(Run(s, cs), c)
  {
    hide Run, Step;
    RunAppend(s, cs, [c]);
    RunOne(Run(s, cs), c);
  }

  lemma {:induction false} RunFlags(now: int, cs: seq<Command>)
    requires now > 0 && forall c <- cs :: Clock(c)
    ensures FlagsAgree(Run(Initial(now), cs), cs) && MetaAgrees(Run(Initial(now), cs), cs)
    decreases |cs|
  {
    hide Run, Step, FlagsAgree, MetaAgrees, Clock, Initial;
    if cs == [] {
      FirstFlags(now);
    } else {
      var before, c := cs[..|cs| - 1], cs[|cs| - 1];
      assert cs == before + [c] && Clock(c);
      RunFlags(now, before);
      var s := Run(Initial(now), before);
      StepFlags(s, before, c);
      StepMetaAgrees(s, before, c);
      RunSnoc(Initial(now), before, c);
    }
  }

  lemma FirstFlags(now: int)
    ensures FlagsAgree(Run(Initial(now), []), []) && MetaAgrees(Run(Initial(now), []), [])
  {
    hide UpdateSegmentId;
    CheckFlags(CREATED, now, 0, 0);
  }

  /**
   The slice goes up: it has bytes, was taken, and the plan is the permanent one or there is meta data under the
   other.
   */
  ghost predicate GoesUp(cs: seq<Command>, bytes: bool, accepted: bool) {
    bytes && accepted && (Plan(cs) == 1 || (Plan(cs) == 0 && MetaHeld(cs)))
  }

  /**
   Over every ordered run, whatever sessions, plans and meta data came before: a slice is settled as uploaded, and stays
   in the accumulated durations of its session, if and only if it has bytes, was accepted, and the plan is 1, or is 0
   with meta data still there; otherwise it is lost and taken out again.
   */
  lemma UploadedExactly(now: int, cs: seq<Command>, bytes: bool, accepted: bool)
    requires now > 0 && (forall c <- cs :: Clock(c)) && OrderedRun(Initial(now), cs)
    requires Run(Initial(now), cs).ledger.pending.Ended?
    ensures var s, t := Run(Initial(now), cs), Run(Initial(now), cs + [Upload(bytes, accepted)]);
            var span := s.ledger.pending.span;
            if GoesUp(cs, bytes, accepted) then
              && t.ledger.settled == Uploaded(span.Length()) && t.ledger.uploaded == s.ledger.uploaded.Plus(span)
              && AccOf(t.session) == AccOf(s.session) && t.session.accDuration == s.session.accDuration
            else
              && t.ledger.settled == Lost(span.Length()) && t.ledger.lost == s.ledger.lost.Plus(span)
              && AccOf(t.session).Plus(span) == AccOf(s.session)
              && t.session.accDuration + span.Length() == s.session.accDuration
  {
    hide Run, OrderedRun, Initial, Books, MetaHeld, Plan, FlagsAgree, Step;
    InitialBooks(now);
    RunKeepsBooks(Initial(now), cs);
    RunFlags(now, cs);
    var s := Run(Initial(now), cs);
    RunSnoc(Initial(now), cs, Upload(bytes, accepted));
    FlagsSay(s, cs);
    UploadSettles(s, bytes, accepted);
  }

  lemma FlagsSay(s: State, cs: seq<Command>)
    requires FlagsAgree(s, cs) && MetaAgrees(s, cs)
    ensures s.planType == Plan(cs) && (s.meta <==> MetaHeld(cs))
  {}

  lemma UploadSettles(s: State, bytes: bool, accepted: bool)
    requires Books(s) && s.ledger.pending.Ended?
    ensures var t := Step(s, Upload(bytes, accepted));
            var span := s.ledger.pending.span;
            if bytes && accepted && (s.planType == 1 || (s.planType == 0 && s.meta)) then
              && t.ledger.settled == Uploaded(span.Length()) && t.ledger.uploaded == s.ledger.uploaded.Plus(span)
              && AccOf(t.session) == AccOf(s.session) && t.session.accDuration == s.session.accDuration
            else
              && t.ledger.settled == Lost(span.Length()) && t.ledger.lost == s.ledger.lost.Plus(span)
              && AccOf(t.session).Plus(span) == AccOf(s.session)
              && t.session.accDuration + span.Length() == s.session.accDuration
  {
    hide Span.Length;
  }

  /**
   When a command begins a session, told from the commands before it: a session command always; meta data set during a
   slice, as the first change of meta data since the last slice went, unless the next start is forced already or no
   slice is counted yet; a start that is forced or comes too late.
   */
  lemma OpensByCommands(now: int, cs: seq<Command>, c: Command)
    requires now > 0 && (forall x <- cs :: Clock(x)) && Clock(c) && OrderedRun(Initial(now), cs + [c])
    ensures var s, t := Run(Initial(now), cs), Run(Initial(now), cs + [c]);
            |t.closed| == |s.closed| + if
              match c
              case SegCommand(_) => true
              case SetMeta(_) => UnderWay(cs) && !Meddled(cs) && !Forced(cs) && s.session.sequenceNumber > 0
              case StartTime(t) => Forced(cs) || Rotation(s.keeper, t, s.lastTsDuration) != 0
              case _ => false
              then 1 else 0
  {
    hide Run, OrderedRun, Initial, Books, Timed, MetaHeld, Plan, MetaAgrees, Step, Rotation, Meddled, Forced, UnderWay;
    InitialBooks(now);
    OrderedSnoc(Initial(now), cs, c);
    RunKeepsBooks(Initial(now), cs);
    RotationInTime(now, cs);
    RunFlags(now, cs);
    RunSnoc(Initial(now), cs, c);
    OpensExactly(Run(Initial(now), cs), c);
  }

  lemma {:induction false} OrderedSnoc(s: State, cs: seq<Command>, c: Command)
    requires OrderedRun(s, cs + [c])
    ensures OrderedRun(s, cs) && Ordered(Run(s, cs).ledger, c)
    decreases |cs|
  {
    hide Step, Ordered;
    if cs == [] {
      assert (cs + [c])[0] == c;
    } else {
      assert (cs + [c])[1..] == cs[1..] + [c];
      OrderedSnoc(Step(s, cs[0]), cs[1..], c);
    }
  }
}
