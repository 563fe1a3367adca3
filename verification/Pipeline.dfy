/**
 From the producer to the sessions: the frames of any run, cut into slices and
 reported as commands that mingle with those of other threads, against the
 durations in the fields of all sessions.
 */
module Pipeline {
  import opened TsUploader
  import opened SessionId
  import opened SessionAccounts
  import opened SessionTotals
  import opened SliceSpans
  import SliceCuts
  import Producer = TsMuxUploader

  /** A report on its way: when it was made, and what became of its slice. */
  datatype Report = Report(event: Producer.Event, t: int, drop: bool, bytes: bool, accepted: bool)

  /** Commands the producer pushes; the others come from other threads. */
  predicate Own(c: Command) {
    !(c.SetMeta? || c.ClrMeta? || c.SetPlan? || c.Configure?)
  }

  /** reportTimeInfo and notifyDataPrapared: an end is pushed with its upload, or is a drop; frames push nothing. */
  function CommandsOf(r: Report): seq<Command> {
    match r.event
    case Start => [StartTime(r.t)]
    case Seg => [SegCommand(r.t)]
    case End(audio, video, _) =>
      if r.drop then [DropTs(r.t, Span(audio, video))]
      else [EndTime(r.t, Span(audio, video)), Upload(r.bytes, r.accepted)]
    case Frame(_, _, _) => []
  }

  function Commands(rs: seq<Report>): seq<Command> {
    if rs == [] then [] else Commands(rs[..|rs| - 1]) + CommandsOf(rs[|rs| - 1])
  }

  function EventsOf(rs: seq<Report>): seq<Producer.Event> {
    seq(|rs|, i requires 0 <= i < |rs| => rs[i].event)
  }

  /** The producer's commands among those that reach the worker: any merge of both has this part. */
  function OwnPart(cs: seq<Command>): seq<Command> {
    if cs == [] then [] else (if Own(cs[0]) then [cs[0]] else []) + OwnPart(cs[1..])
  }

  // ---- the order of the commands

  /** Each end has its upload before the next start, end, or session command of the producer. */
  predicate Paired(cs: seq<Command>, pending: bool) {
    if cs == [] then !pending
    else match cs[0]
      case EndTime(_, _) => !pending && Paired(cs[1..], true)
      case Upload(_, _) => pending && Paired(cs[1..], false)
      case _ => !pending && Paired(cs[1..], false)
  }

  lemma {:induction false} PairedAppend(a: seq<Command>, b: seq<Command>, pending: bool)
    requires Paired(a, pending) && Paired(b, false)
    ensures Paired(a + b, pending)
  {
    if a == [] {
      assert a + b == b;
    } else {
      assert (a + b)[1..] == a[1..] + b;
      PairedAppend(a[1..], b, a[0].EndTime?);
    }
  }

  lemma {:induction false} CommandsPaired(rs: seq<Report>)
    ensures Paired(Commands(rs), false)
  {
    if rs != [] {
      var r := rs[|rs| - 1];
      CommandsPaired(rs[..|rs| - 1]);
      OnePaired(r);
      PairedAppend(Commands(rs[..|rs| - 1]), CommandsOf(r), false);
    }
  }

  lemma OnePaired(r: Report)
    ensures Paired(CommandsOf(r), false)
  {
    var cs := CommandsOf(r);
    if |cs| == 2 {
      assert cs[1..] == [cs[1]] && cs[1..][1..] == [];
    } else if |cs| == 1 {
      assert cs[1..] == [];
    }
  }

  lemma {:induction false} MergeOrdered(s: State, cs: seq<Command>)
    requires Paired(OwnPart(cs), s.ledger.pending != Nothing)
    ensures OrderedRun(s, cs) && Run(s, cs).ledger.pending == Nothing
    decreases |cs|
  {
    hide Step;
    if cs != [] {
      StepPending(s, cs[0]);
      OwnHead(cs);
      MergeOrdered(Step(s, cs[0]), cs[1..]);
    }
  }

  // ---- what the commands announce

  lemma {:induction false} AnnouncedAppend(a: seq<Command>, b: seq<Command>)
    ensures AnnouncedAll(a + b) == AnnouncedAll(a).Plus(AnnouncedAll(b))
  {
    hide Announced;
    if a == [] {
      assert a + b == b;
    } else {
      assert (a + b)[1..] == a[1..] + b;
      AnnouncedAppend(a[1..], b);
    }
  }

  lemma OwnHead(cs: seq<Command>)
    requires cs != []
    ensures if Own(cs[0]) then OwnPart(cs) != [] && OwnPart(cs)[0] == cs[0] && OwnPart(cs)[1..] == OwnPart(cs[1..])
            else OwnPart(cs) == OwnPart(cs[1..])
  {}

  lemma ForeignAnnounces(c: Command)
    ensures !Own(c) ==> Announced(c) == ZERO
  {}

  lemma {:induction false} AnnouncedOwn(cs: seq<Command>)
    ensures AnnouncedAll(cs) == AnnouncedAll(OwnPart(cs))
  {
    hide Announced, Own, Span.Plus;
    if cs != [] {
      AnnouncedOwn(cs[1..]);
      OwnHead(cs);
      ForeignAnnounces(cs[0]);
      SpanSums(AnnouncedAll(cs[1..]), ZERO, ZERO);
    }
  }

  lemma {:induction false} CommandsAnnounce(rs: seq<Report>)
    ensures AnnouncedAll(Commands(rs)) == SaidAll(EventsOf(rs))
  {
    hide Announced, Span.Plus, CommandsOf, Said;
    if rs != [] {
      var before, r := rs[..|rs| - 1], rs[|rs| - 1];
      CommandsAnnounce(before);
      assert EventsOf(rs)[..|rs| - 1] == EventsOf(before);
      OneAnnounces(r);
      AnnouncedAppend(Commands(before), CommandsOf(r));
    }
  }

  lemma OneAnnounces(r: Report)
    ensures AnnouncedAll(CommandsOf(r)) == Said(r.event)
  {
    hide Announced, Span.Plus;
    var cs := CommandsOf(r);
    OneOrTwo(cs);
    SpanSums(Said(r.event), ZERO, ZERO);
    assert |cs| > 0 ==> Announced(cs[0]) == Said(r.event) by { FirstAnnounces(r); }
    assert |cs| > 1 ==> Announced(cs[1]) == ZERO by { FirstAnnounces(r); }
  }

  lemma FirstAnnounces(r: Report)
    ensures var cs := CommandsOf(r);
            && |cs| <= 2 && (|cs| > 0 ==> Announced(cs[0]) == Said(r.event)) && (|cs| > 1 ==> Announced(cs[1]) == ZERO)
            && (cs == [] ==> Said(r.event) == ZERO)
  {}

  lemma OneOrTwo(cs: seq<Command>)
    ensures |cs| == 1 ==> AnnouncedAll(cs) == Announced(cs[0]).Plus(ZERO)
    ensures |cs| == 2 ==> AnnouncedAll(cs) == Announced(cs[0]).Plus(Announced(cs[1]).Plus(ZERO))
  {
    hide Announced, Span.Plus;
    if |cs| == 2 {
      assert cs[1..][1..] == [];
    }
  }

  /**
   Every log of reports, however it mingles with other threads, gives an ordered run that announces what its ends say.
   */
  lemma ReportsAreOrdered(s: State, rs: seq<Report>, cs: seq<Command>)
    requires s.ledger.pending == Nothing && OwnPart(cs) == Commands(rs)
    ensures OrderedRun(s, cs) && Run(s, cs).ledger.pending == Nothing
    ensures AnnouncedAll(cs) == SaidAll(EventsOf(rs))
  {
    hide Run, OrderedRun, Commands, AnnouncedAll, SaidAll;
    CommandsPaired(rs);
    MergeOrdered(s, cs);
    AnnouncedOwn(cs);
    CommandsAnnounce(rs);
  }

  lemma {:induction false} CommandsGood(rs: seq<Report>)
    requires forall r <- rs :: r.t > 0 && Positive(Said(r.event))
    ensures forall c <- Commands(rs) :: Clock(c) && NoLess(c)
  {
    if rs != [] {
      var r := rs[|rs| - 1];
      assert r in rs;
      CommandsGood(rs[..|rs| - 1]);
      assert forall c <- CommandsOf(r) :: Clock(c) && NoLess(c);
    }
  }

  lemma {:induction false} MergeGood(cs: seq<Command>)
    requires forall c <- OwnPart(cs) :: Clock(c) && NoLess(c)
    ensures forall c <- cs :: Clock(c) && NoLess(c)
  {
    if cs != [] {
      assert Clock(cs[0]) && NoLess(cs[0]) by {
        if Own(cs[0]) {
          assert cs[0] == OwnPart(cs)[0];
        }
      }
      assert forall c <- OwnPart(cs[1..]) :: c in OwnPart(cs);
      MergeGood(cs[1..]);
      assert cs == [cs[0]] + cs[1..];
    }
  }

  // ---- end to end

  /**
   For every run of the producer, every fate of its slices and every merge with other commands: the durations in the
   fields of all sessions are those of the frames of the slices, and those of a slice once more for every session
   opened while it was under way. They are the true lengths exactly when no stream of a slice goes on from timestamp 0.
   */
  lemma DurationsArrive(now: int, calls: seq<Producer.Call>, rs: seq<Report>, cs: seq<Command>)
    requires now > 0 && forall c <- calls :: SliceCuts.Timed(c)
    requires EventsOf(rs) == Producer.Run(Producer.INITIAL, calls).log
    requires OwnPart(cs) == Commands(rs) && forall r <- rs :: r.t > 0
    ensures var s, slices := Run(Initial(now), cs), Slices(EventsOf(rs));
            var extra := ExtraAll(Initial(now), cs);
            && Books(s) && s.ledger.pending == Nothing
            && AllTotals(s) == ReportedSpans(slices).Plus(extra)
            && AllAccs(s).Plus(LostAll(Initial(now), cs)) == ReportedSpans(slices).Plus(extra)
            && (AllTotals(s) == ReportedSpans(slices) <==> NothingDoubled(Initial(now), cs))
            && (AllTotals(s) == TrueSpans(slices).Plus(extra) <==> forall fs <- slices :: !FromZero(fs))
  {
    hide Run, OrderedRun, Books, Timed, Commands, Initial, NothingDoubled, ExtraAll, LostAll, AnnouncedAll, AllTotals,
      AllAccs;
    hide SaidAll, Slices, ReportedSpans, TrueSpans, FromZero, Producer.Run, EventsOf, SliceCuts.WellCut,
      SliceCuts.Timed, Clock, NoLess;
    var s0, log := Initial(now), EventsOf(rs);
    StartOfAll(now);
    SliceCuts.EveryRun(calls);
    LogReported(log);
    EndsSaySlices(log);
    ReportsAreOrdered(s0, rs, cs);
    AllGood(rs, cs);
    RunKeepsBooks(s0, cs);
    RunConserves(s0, cs);
    RunEntersOnceExactly(s0, cs);
    SameSum(AllTotals(Run(s0, cs)), ReportedSpans(Slices(log)), TrueSpans(Slices(log)), ExtraAll(s0, cs));
  }

  lemma SameSum(all: Span, a: Span, b: Span, extra: Span)
    requires all == a.Plus(extra)
    ensures all == b.Plus(extra) <==> a == b
  {}

  lemma AllGood(rs: seq<Report>, cs: seq<Command>)
    requires OwnPart(cs) == Commands(rs) && SliceCuts.WellCut(EventsOf(rs)) && forall r <- rs :: r.t > 0
    ensures forall c <- cs :: Clock(c) && NoLess(c)
  {
    EndsNotNegative(EventsOf(rs));
    forall r | r in rs ensures Positive(Said(r.event)) {
      var i :| 0 <= i < |rs| && rs[i] == r;
      assert EventsOf(rs)[i] == r.event;
    }
    CommandsGood(rs);
    MergeGood(cs);
  }

  lemma StartOfAll(now: int)
    requires now > 0
    ensures var s := Initial(now);
            Books(s) && Timed(s) && s.ledger.pending == Nothing && Under(s.ledger.pending) == ZERO
              && AllTotals(s) == ZERO == AllAccs(s)
  {
    hide UpdateSegmentId, Books, Timed, NO_SESSION, NO_LEDGER;
    InitialBooks(now);
    RotationInTime(now, []);
    assert NO_SESSION.audioGap == NO_SESSION.videoGap == 0 && NO_LEDGER.pending.Nothing? by { Blank(); }
    FirstSession(CREATED, now);
  }

  lemma Blank()
    ensures NO_SESSION.audioGap == NO_SESSION.videoGap == 0 && NO_LEDGER.pending.Nothing?
  {}

  lemma FirstSession(s: State, start: int)
    requires s.keeper.segmentId == 0 && s.session.audioGap == s.session.videoGap == 0
    requires s.ledger.pending.Nothing? && s.closed == []
    ensures var t := UpdateSegmentId(s, start, 0, 0).0; t.ledger.pending.Nothing? && AllTotals(t) == ZERO == AllAccs(t)
  {
    hide NameOf;
  }
}
