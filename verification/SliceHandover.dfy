/**
 What becomes of a slice that is handed over: when it is dropped and when it is
 uploaded, and that commands and slices reach the workers in order.

 The record below is kept by an observer who sees the queues and the threads
 before and after every action, not what the actions are meant to do.
 */
module SliceHandover {
  import opened Bytes
  import opened SlicePool

  /** What the observer writes down, oldest first. */
  datatype Record = Record(
    handed: seq<Id>,
    decided: seq<Id>,
    refused: seq<Id>,
    accepted: seq<Id>,
    dropped: seq<Id>,
    due: seq<Command>,
    pushed: seq<Command>,
    popped: seq<Command>,
    started: seq<Id>,
    ups: nat,
    downs: nat,
    passed: seq<Id>,
    fitting: seq<Id>,
    shown: seq<Callback>,
    taken: seq<Callback>,
    called: seq<Id>)

  const NO_RECORD := Record([], [], [], [], [], [], [], [], [], 0, 0, [], [], [], [], [])

  /** The slice is not accepted: two uploads are pending, or the queue has no room for one of its two commands. */
  predicate Refuses(s: State, a: Action) {
    || (a == Announce && s.producer.Referenced? && (PendingUploads(s) >= 2 || |s.commands| >= 96))
    || (a == PushUpload && s.producer.EndPushed? && |s.commands| >= 96)
  }

  /** Its upload is in the queue. */
  predicate Accepts(s: State, a: Action) {
    a == PushUpload && s.producer.EndPushed? && |s.commands| < 96
  }

  function Grown<T>(before: seq<T>, after: seq<T>): seq<T> {
    if |after| > |before| then after[|before|..] else []
  }

  function Shrunk<T>(before: seq<T>, after: seq<T>): seq<T> {
    if |after| < |before| then before[..|before| - |after|] else []
  }

  /** The producer's slice, as long as its fate is open. */
  function Open(p: Producer): seq<Id> {
    match p
    case Referenced(id) => [id]
    case EndPushed(id) => [id]
    case _ => []
  }

  /** The producer's slice, until the callback worker's queue was offered it. */
  function Carried(p: Producer): seq<Id> {
    match p
    case Referenced(id) => [id]
    case EndPushed(id) => [id]
    case UploadPushed(id) => [id]
    case Dropping(id) => [id]
    case ToCallback(id, _) => [id]
    case _ => []
  }

  function Held(w: Worker): seq<Id> {
    if w.Holding? then [w.id] else []
  }

  /** The record after an action that led from s to t. */
  function Note(r: Record, s: State, a: Action, t: State): Record {
    Record(
      r.handed + (if s.producer.Idle? then Carried(t.producer) else []),
      r.decided + (if Refuses(s, a) || Accepts(s, a) then [s.producer.id] else []),
      r.refused + (if Refuses(s, a) then [s.producer.id] else []),
      r.accepted + (if Accepts(s, a) then [s.producer.id] else []),
      r.dropped + (if t.producer.Dropping? && !s.producer.Dropping? then [t.producer.id] else []),
      r.due + Pushes(s, a),
      r.pushed + Grown(s.commands, t.commands),
      r.popped + Shrunk(s.commands, t.commands),
      r.started + (if s.uploader.Waiting? then Held(t.uploader) else []),
      r.ups + (if t.cacheNum > s.cacheNum then 1 else 0),
      r.downs + (if t.cacheNum < s.cacheNum then 1 else 0),
      r.passed + (if a == PushCallback && s.producer.ToCallback? then [s.producer.id] else []),
      r.fitting
      + (if a == PushCallback && s.producer.ToCallback? && |s.callbacks| < 24 then [s.producer.id] else []),
      r.shown + Grown(s.callbacks, t.callbacks),
      r.taken + Shrunk(s.callbacks, t.callbacks),
      r.called + (if s.caller.Waiting? then Held(t.caller) else []))
  }

  ghost function Observed(actions: seq<Action>): Record
    decreases |actions|
  {
    if actions == [] then NO_RECORD
    else
      var before, a := actions[..|actions| - 1], actions[|actions| - 1];
      Note(Observed(before), Run(before), a, Run(actions))
  }

  // ---- what an action does to the queues

  /** A queue takes one more at its end or gives its first, or stays. */
  ghost predicate Moves<T>(before: seq<T>, after: seq<T>) {
    || after == before
    || (|after| == |before| + 1 && after[..|before|] == before)
    || (before != [] && after == before[1..])
  }

  /** The producer's own commands. */
  function Own(cs: seq<Command>): seq<Command> {
    if cs == [] then []
    else Own(cs[..|cs| - 1]) + if cs[|cs| - 1] == OtherCommand then [] else [cs[|cs| - 1]]
  }

  function UploadIds(cs: seq<Command>): seq<Id> {
    if cs == [] then []
    else UploadIds(cs[..|cs| - 1]) + if cs[|cs| - 1].Upload? then [cs[|cs| - 1].id] else []
  }

  function OutputIds(cs: seq<Callback>): seq<Id> {
    if cs == [] then []
    else OutputIds(cs[..|cs| - 1]) + if cs[|cs| - 1].Output? then [cs[|cs| - 1].id] else []
  }

  /** The command the producer pushes next: an end while there is room for an upload, then the upload, or a drop. */
  function Pushes(s: State, a: Action): seq<Command> {
    if |s.commands| >= 96 then []
    else if a == Announce && s.producer.Referenced? then
      [if PendingUploads(s) >= 2 then DropNotice else EndTime]
    else if a == PushUpload && s.producer.EndPushed? then [Upload(s.producer.id)]
    else if a == PushOtherCommand then [OtherCommand]
    else []
  }

  /** Commands: pushed as said above, and popped by the upload worker alone. */
  lemma StepCommands(s: State, a: Action)
    requires Inv(s) && Safe(s)
    ensures var t := Step(s, a);
            && Moves(s.commands, t.commands) && Grown(s.commands, t.commands) == Pushes(s, a)
            && (a == PopCommand && s.uploader == Waiting && s.commands != [] ==> t.commands == s.commands[1..])
            && (s.uploader.Waiting? ==> Held(t.uploader) == UploadIds(Shrunk(s.commands, t.commands)))
            && (!s.uploader.Waiting? ==> |t.commands| >= |s.commands|)
  {
    hide SlotsExact, CountsExact, FreeSlot, Uploads, UploadsOf, OutputsOf;
    var t := Step(s, a);
    assert CacheExact(s);
    if |t.commands| < |s.commands| {
      assert Shrunk(s.commands, t.commands) == [s.commands[0]];
      assert [s.commands[0]][..0] == [];
    }
  }

  /** The producer: handed a slice, deciding on it, and passing it on, one after the other. */
  lemma StepProducer(s: State, a: Action)
    requires Inv(s) && Safe(s)
    ensures var t := Step(s, a);
            && (s.producer.Idle? ==> Open(t.producer) == Carried(t.producer))
            && (!s.producer.Idle? ==>
                  && Open(t.producer) == (if Refuses(s, a) || Accepts(s, a) then [] else Open(s.producer))
                  && Carried(t.producer) ==
                      (if a == PushCallback && s.producer.ToCallback? then [] else Carried(s.producer)))
            && (t.producer.Dropping? && !s.producer.Dropping? <==> Refuses(s, a))
            && (Refuses(s, a) ==> t.producer == Dropping(s.producer.id))
            && (t.producer.EndPushed? && !s.producer.EndPushed? ==> Pushes(s, a) == [EndTime])
            && (s.producer.EndPushed? && Pushes(s, a) != [] && Pushes(s, a) != [OtherCommand] ==> Accepts(s, a))
            && (s.producer.EndPushed? && !Refuses(s, a) && !Accepts(s, a) ==> t.producer == s.producer)
  {
    hide SlotsExact, CountsExact, FreeSlot, Uploads, UploadsOf, OutputsOf;
    assert CacheExact(s);
  }

  /** The cache number goes up once for a pushed upload, and down once for a finished one. */
  lemma StepCount(s: State, a: Action)
    requires Inv(s) && Safe(s)
    ensures var t := Step(s, a);
            && -1 <= t.cacheNum - s.cacheNum <= 1
            && (t.cacheNum > s.cacheNum <==> s.producer.UploadPushed? && !t.producer.UploadPushed?)
            && (t.producer.UploadPushed? && !s.producer.UploadPushed? <==> Accepts(s, a))
            && (t.cacheNum < s.cacheNum <==> !s.uploader.Waiting? && t.uploader.Waiting?)
            && (s.uploader.Waiting? && !t.uploader.Waiting? <==> s.uploader.Waiting? && t.uploader.Holding?)
            && (t.uploader.Holding? ==> s.uploader.Waiting? || t.uploader == s.uploader)
  {
    hide SlotsExact, CountsExact, FreeSlot, Uploads, UploadsOf, OutputsOf;
    assert CacheExact(s);
  }

  /** The queue of the callback worker: it is offered every slice once, and takes it while there is room. */
  lemma StepCallbacks(s: State, a: Action)
    requires Inv(s) && Safe(s)
    ensures var t := Step(s, a);
            && Moves(s.callbacks, t.callbacks)
            && Grown(s.callbacks, t.callbacks) ==
               (if |s.callbacks| >= 24 then []
                else if a == PushCallback && s.producer.ToCallback? then [Output(s.producer.id)]
                else if a == PushOtherCallback then [OtherCallback] else [])
            && (s.caller.Waiting? ==> Held(t.caller) == OutputIds(Shrunk(s.callbacks, t.callbacks)))
            && (!s.caller.Waiting? ==> |t.callbacks| >= |s.callbacks|)
  {
    hide SlotsExact, CountsExact, FreeSlot, Uploads, UploadsOf, OutputsOf;
    var t := Step(s, a);
    if |t.callbacks| < |s.callbacks| {
      assert Shrunk(s.callbacks, t.callbacks) == [s.callbacks[0]];
      assert [s.callbacks[0]][..0] == [];
    }
  }

  // ---- over every run

  lemma QueueMoves<T>(pushed: seq<T>, popped: seq<T>, before: seq<T>, after: seq<T>)
    requires pushed == popped + before && Moves(before, after)
    ensures pushed + Grown(before, after) == popped + Shrunk(before, after) + after
  {
    if |after| > |before| {
      assert after == before + Grown(before, after);
      assert popped + [] + after == popped + before + Grown(before, after);
    } else if |after| < |before| {
      assert before == Shrunk(before, after) + after;
      assert pushed + [] == popped + (Shrunk(before, after) + after);
    }
  }

  lemma IdsAppend(cs: seq<Command>, more: seq<Command>)
    requires |more| <= 1
    ensures UploadIds(cs + more) == UploadIds(cs) + UploadIds(more) && Own(cs + more) == Own(cs) + Own(more)
  {
    if more == [] {
      assert cs + more == cs;
    } else {
      assert (cs + more)[..|cs|] == cs && more[..0] == [];
    }
  }

  lemma OutputsAppended(cs: seq<Callback>, more: seq<Callback>)
    requires |more| <= 1
    ensures OutputIds(cs + more) == OutputIds(cs) + OutputIds(more)
  {
    if more == [] {
      assert cs + more == cs;
    } else {
      assert (cs + more)[..|cs|] == cs && more[..0] == [];
    }
  }

  lemma OneId(c: Command, d: Callback)
    ensures UploadIds([c]) == (if c.Upload? then [c.id] else []) && Own([c]) == (if c == OtherCommand then [] else [c])
    ensures OutputIds([d]) == if d.Output? then [d.id] else []
  {
    assert [c][..0] == [] && [d][..0] == [];
  }

  /** Both queues are first in, first out, and each worker starts what it pops. */
  ghost predicate InOrder(r: Record, s: State) {
    && r.pushed == r.popped + s.commands && r.started == UploadIds(r.popped)
    && r.shown == r.taken + s.callbacks && r.called == OutputIds(r.taken)
  }

  lemma MovesLittle<T>(before: seq<T>, after: seq<T>)
    requires Moves(before, after)
    ensures |Grown(before, after)| <= 1 && |Shrunk(before, after)| <= 1
  {}

  lemma StepInOrder(r: Record, s: State, a: Action)
    requires Inv(s) && Safe(s) && InOrder(r, s)
    ensures InOrder(Note(r, s, a, Step(s, a)), Step(s, a))
  {
    hide Step, Inv, Safe, Grown, Shrunk, Moves, UploadIds, OutputIds, Pushes, Held;
    var t := Step(s, a);
    StepCommands(s, a);
    StepCallbacks(s, a);
    MovesLittle(s.commands, t.commands);
    MovesLittle(s.callbacks, t.callbacks);
    QueueMoves(r.pushed, r.popped, s.commands, t.commands);
    QueueMoves(r.shown, r.taken, s.callbacks, t.callbacks);
    IdsAppend(r.popped, Shrunk(s.commands, t.commands));
    OutputsAppended(r.taken, Shrunk(s.callbacks, t.callbacks));
    NotShrunk(s.commands, t.commands);
    NotShrunk(s.callbacks, t.callbacks);
    NoIds();
  }

  lemma NotShrunk<T>(before: seq<T>, after: seq<T>)
    ensures |after| >= |before| ==> Shrunk(before, after) == []
  {}

  lemma NoIds()
    ensures UploadIds([]) == [] && OutputIds([]) == [] && Own([]) == []
  {}

  /** Every slice handed over is decided on once, in order, and offered to the callback worker once, in order. */
  ghost predicate Decided(r: Record, s: State) {
    && r.handed == r.decided + Open(s.producer) && r.handed == r.passed + Carried(s.producer)
    && r.dropped == r.refused && UploadIds(r.pushed) == r.accepted && OutputIds(r.shown) == r.fitting
    && r.pushed == r.due
  }

  lemma StepDecided(r: Record, s: State, a: Action)
    requires Inv(s) && Safe(s) && Decided(r, s)
    ensures Decided(Note(r, s, a, Step(s, a)), Step(s, a))
  {
    hide Step, Inv, Safe, Grown, Shrunk, Moves, UploadIds, OutputIds, Pushes, Refuses, Accepts, Open, Carried;
    StepCommands(s, a);
    StepProducer(s, a);
    NewUploads(s, a);
    IdsAppend(r.pushed, Pushes(s, a));
    NewOutputs(s, a);
    OutputsAppended(r.shown, Grown(s.callbacks, Step(s, a).callbacks));
    OnlyIfOpen(s, a);
    NothingCarried();
  }

  lemma NothingCarried()
    ensures Open(Idle) == [] && Carried(Idle) == []
  {}

  lemma OnlyIfOpen(s: State, a: Action)
    ensures Refuses(s, a) || Accepts(s, a) ==> !s.producer.Idle? && Open(s.producer) == [s.producer.id]
    ensures s.producer.ToCallback? ==> Carried(s.producer) == [s.producer.id]
    ensures |Pushes(s, a)| <= 1
  {
    hide PendingUploads;
  }

  lemma NewUploads(s: State, a: Action)
    ensures UploadIds(Pushes(s, a)) == if Accepts(s, a) then [s.producer.id] else []
    ensures |Pushes(s, a)| <= 1
  {
    hide UploadIds, PendingUploads;
    NoIds();
    if Pushes(s, a) != [] {
      OneId(Pushes(s, a)[0], OtherCallback);
    }
  }

  lemma NewOutputs(s: State, a: Action)
    requires Inv(s) && Safe(s)
    ensures var more := Grown(s.callbacks, Step(s, a).callbacks);
            && |more| <= 1
            && OutputIds(more) ==
               if a == PushCallback && s.producer.ToCallback? && |s.callbacks| < 24
               then [s.producer.id] else []
  {
    hide Step, Inv, Safe, Grown, OutputIds;
    StepCallbacks(s, a);
    NoIds();
    OneId(EndTime, OtherCallback);
    if s.producer.ToCallback? {
      OneId(EndTime, Output(s.producer.id));
    }
  }

  /** Each upload of the producer's commands follows its end directly. */
  ghost predicate EndsFirst(r: Record, s: State) {
    var own := Own(r.pushed);
    && (s.producer.EndPushed? ==> own != [] && own[|own| - 1] == EndTime)
    && forall i :: 0 <= i < |own| && own[i].Upload? ==> i > 0 && own[i - 1] == EndTime
  }

  lemma StepEndsFirst(r: Record, s: State, a: Action)
    requires Inv(s) && Safe(s) && EndsFirst(r, s)
    ensures EndsFirst(Note(r, s, a, Step(s, a)), Step(s, a))
  {
    hide Step, Inv, Safe, Grown, Shrunk, Moves, UploadIds, OutputIds, Own;
    StepCommands(s, a);
    StepProducer(s, a);
    IdsAppend(r.pushed, Pushes(s, a));
    NoIds();
    if Pushes(s, a) != [] {
      OneId(Pushes(s, a)[0], OtherCallback);
      assert Pushes(s, a) == [Pushes(s, a)[0]];
    }
  }

  /** The cache number was raised once for every upload pushed and lowered once for every upload finished. */
  ghost predicate Counted(r: Record, s: State) {
    && r.ups + (if s.producer.UploadPushed? then 1 else 0) == |r.accepted|
    && r.downs + (if s.uploader.Waiting? then 0 else 1) == |r.started|
    && s.cacheNum == r.ups - r.downs
  }

  lemma StepCounted(r: Record, s: State, a: Action)
    requires Inv(s) && Safe(s) && Counted(r, s)
    ensures Counted(Note(r, s, a, Step(s, a)), Step(s, a))
  {
    hide Step, Inv, Safe, Grown, Shrunk, Pushes, Refuses, Accepts, Carried;
    StepCount(s, a);
    assert Accepts(s, a) ==> s.producer.EndPushed? by { AcceptsEnd(s, a); }
  }

  lemma AcceptsEnd(s: State, a: Action)
    ensures Accepts(s, a) ==> s.producer.EndPushed?
  {}

  lemma {:induction false} Observation(actions: seq<Action>)
    ensures var r, s := Observed(actions), Run(actions);
            InOrder(r, s) && Decided(r, s) && EndsFirst(r, s) && Counted(r, s)
    decreases |actions|
  {
    hide Step, Inv, Safe, Note, InOrder, Decided, EndsFirst, Counted;
    if actions == [] {
      NothingYet();
    } else {
      var before, a := actions[..|actions| - 1], actions[|actions| - 1];
      Observation(before);
      var r, s := Observed(before), Run(before);
      StepInOrder(r, s, a);
      StepDecided(r, s, a);
      StepEndsFirst(r, s, a);
      StepCounted(r, s, a);
    }
  }

  lemma NothingYet()
    ensures var s := Init();
            InOrder(NO_RECORD, s) && Decided(NO_RECORD, s) && EndsFirst(NO_RECORD, s) && Counted(NO_RECORD, s)
  {}

  /**
   A slice that was handed over is dropped if and only if two uploads were pending when it was announced, or the queue
   had no room for its end or its upload; otherwise its upload is pushed, directly behind its end.
   */
  lemma DroppedExactly(actions: seq<Action>)
    ensures var r, s := Observed(actions), Run(actions);
            && r.dropped == r.refused && UploadIds(r.pushed) == r.accepted && r.pushed == r.due
            && r.handed == r.decided + Open(s.producer)
            && forall i :: 0 <= i < |Own(r.pushed)| && Own(r.pushed)[i].Upload? ==>
                 i > 0 && Own(r.pushed)[i - 1] == EndTime
  {
    hide Run, Observed;
    Observation(actions);
  }

  /**
   The uploads accepted are those the worker has started, then those queued, in order; each is counted up and down
   once.
   */
  lemma UploadsInOrder(actions: seq<Action>)
    ensures var r, s := Observed(actions), Run(actions);
            && r.accepted == r.started + UploadIds(s.commands)
            && r.ups + (if s.producer.UploadPushed? then 1 else 0) == |r.accepted|
            && r.downs + (if s.uploader.Waiting? then 0 else 1) == |r.started|
            && s.cacheNum == r.ups - r.downs
  {
    hide Run, Observed, UploadIds;
    Observation(actions);
    ManyIds(Observed(actions).popped, Run(actions).commands);
  }

  lemma {:induction false} ManyIds(a: seq<Command>, b: seq<Command>)
    ensures UploadIds(a + b) == UploadIds(a) + UploadIds(b)
    decreases |b|
  {
    if b == [] {
      assert a + b == a;
    } else {
      assert (a + b)[..|a + b| - 1] == a + b[..|b| - 1];
      ManyIds(a, b[..|b| - 1]);
    }
  }

  /**
   Every slice handed over, dropped or not, is offered to the callback worker, which gets those there was room for in
   order.
   */
  lemma CallbacksInOrder(actions: seq<Action>)
    ensures var r, s := Observed(actions), Run(actions);
            r.handed == r.passed + Carried(s.producer) && r.fitting == r.called + OutputIds(s.callbacks)
  {
    hide Run, Observed, OutputIds;
    Observation(actions);
    ManyOutputs(Observed(actions).taken, Run(actions).callbacks);
  }

  lemma {:induction false} ManyOutputs(a: seq<Callback>, b: seq<Callback>)
    ensures OutputIds(a + b) == OutputIds(a) + OutputIds(b)
    decreases |b|
  {
    if b == [] {
      assert a + b == a;
    } else {
      assert (a + b)[..|a + b| - 1] == a + b[..|b| - 1];
      ManyOutputs(a, b[..|b| - 1]);
    }
  }

  // ---- nothing stalls

  /** The next state of the producer, whatever the other threads have done. */
  lemma ProducerGoesOn(s: State, a: Action)
    requires Inv(s) && Safe(s)
    ensures var p, q := s.producer, Step(s, a).producer;
            match a
            case BeginNotify => q == if p.Idle? && s.current.Some? then Referenced(s.current.value) else p
            case Announce => if p.Referenced? then q == EndPushed(p.id) || q == Dropping(p.id) else q == p
            case PushUpload => if p.EndPushed? then q == UploadPushed(p.id) || q == Dropping(p.id) else q == p
            case CountUpload => q == if p.UploadPushed? then ToCallback(p.id, false) else p
            case DropReference => q == if p.Dropping? then ToCallback(p.id, true) else p
            case PushCallback => if p.ToCallback? then q == Refilling || q == Destroying(p.id) else q == p
            case DestroyDropped => if p.Destroying? then q == Refilling || q == Freeing(p.id) else q == p
            case FreeDropped => q == if p.Freeing? then Refilling else p
            case Refill => q == if p.Refilling? then Idle else p
            case _ => q == p
  {
    hide SlotsExact, CountsExact, FreeSlot, Uploads, UploadsOf, OutputsOf;
  }

  lemma WorkersGoOn(s: State, a: Action)
    requires Inv(s) && Safe(s)
    ensures var u, c, t := s.uploader, s.caller, Step(s, a);
            && (a == DestroyUploaded && u.Holding? ==> t.uploader == Uncounting || t.uploader == Releasing(u.id))
            && (a == FreeUploaded && u.Releasing? ==> t.uploader == Uncounting)
            && (a == Uncount && u.Uncounting? && s.producer.Idle? ==> t.uploader == Waiting)
            && (a == OutputSlice && c.Holding? ==> t.caller == Waiting || t.caller == Releasing(c.id))
            && (a == FreeOutput && c.Releasing? ==> t.caller == Waiting)
            && (a !in {DestroyUploaded, FreeUploaded, Uncount, PopCommand} ==> t.uploader == u)
            && (a !in {OutputSlice, FreeOutput, PopCallback} ==> t.caller == c)
            && (a == FreeUploaded && u.Uncounting? ==> t.uploader == u)
            && (a == FreeOutput && c.Waiting? ==> t.caller == c)
            && (a == PopCallback && c == Waiting && s.callbacks != [] ==> t.callbacks == s.callbacks[1..])
  {
    hide SlotsExact, CountsExact, FreeSlot, Uploads, UploadsOf, OutputsOf;
  }

  /** Bytes pushed between two slices go to the current buffer, which is found if there is one or a slot is free. */
  lemma AppendGrows(s: State, n: nat)
    requires Inv(s) && Safe(s) && s.producer.Idle?
    ensures var t := Step(s, Append(n));
            && (t.current.Some? <==> s.current.Some? || FreeSlot(s.used).Some?)
            && (s.current.Some? ==>
                  t.current == s.current && t.bufs[s.current.value].bytes == s.bufs[s.current.value].bytes + n)
            && (s.current.None? && t.current.Some? ==> t.current.value in t.bufs && t.bufs[t.current.value].bytes == n)
  {
    hide CountsExact, FreeSlot, Uploads, UploadsOf, OutputsOf;
  }

  const HAND_OVER: seq<Action> :=
    [BeginNotify, Announce, PushUpload, CountUpload, DropReference, PushCallback, DestroyDropped, FreeDropped, Refill]

  /** Where the producer stands after the first actions of a hand-over. */
  predicate Reached(p: Producer, id: Id, k: nat) {
    match k
    case 1 => p == Referenced(id)
    case 2 => p == EndPushed(id) || p == Dropping(id)
    case 3 => p == UploadPushed(id) || p == Dropping(id)
    case 4 => p == ToCallback(id, false) || p == Dropping(id)
    case 5 => p == ToCallback(id, false) || p == ToCallback(id, true)
    case 6 => p == Refilling || p == Destroying(id)
    case 7 => p == Refilling || p == Freeing(id)
    case 8 => p == Refilling
    case 9 => p == Idle
    case _ => false
  }

  lemma {:induction false} HandOverReaches(actions: seq<Action>, id: Id, k: nat)
    requires Run(actions).producer.Idle? && Run(actions).current == Some(id) && 1 <= k <= 9
    ensures Reached(Run(actions + HAND_OVER[..k]).producer, id, k)
    decreases k
  {
    hide Run, Step, Inv, Safe;
    if k > 1 {
      HandOverReaches(actions, id, k - 1);
    } else {
      assert actions + HAND_OVER[..0] == actions;
    }
    var before := actions + HAND_OVER[..k - 1];
    assert actions + HAND_OVER[..k] == before + [HAND_OVER[k - 1]];
    RunSnoc(before, HAND_OVER[k - 1]);
    ProducerGoesOn(Run(before), HAND_OVER[k - 1]);
  }

  /**
   Every slice that is there can be handed over: the actions of the producer come to their end, with the slice decided
   on.
   */
  lemma HandOverEnds(actions: seq<Action>)
    requires Run(actions).producer.Idle? && Run(actions).current.Some?
    ensures var r := Observed(actions + HAND_OVER);
            && Run(actions + HAND_OVER).producer == Idle
            && r.handed == r.decided == r.passed
    ensures |Observed(actions + HAND_OVER).handed| > 0
  {
    hide Run, Observed, Note;
    var id := Run(actions).current.value;
    HandOverReaches(actions, id, 9);
    assert HAND_OVER[..9] == HAND_OVER;
    Observation(actions + HAND_OVER);
    Handed(actions, id);
    HandedStays(actions + [BeginNotify], HAND_OVER[1..]);
    assert actions + HAND_OVER == actions + [BeginNotify] + HAND_OVER[1..];
  }

  lemma Handed(actions: seq<Action>, id: Id)
    requires Run(actions).producer.Idle? && Run(actions).current == Some(id)
    ensures Observed(actions + [BeginNotify]).handed == Observed(actions).handed + [id]
  {
    hide Run, Step, Inv, Safe;
    RunSnoc(actions, BeginNotify);
    ProducerGoesOn(Run(actions), BeginNotify);
    assert (actions + [BeginNotify])[..|actions|] == actions;
  }

  lemma {:induction false} HandedStays(actions: seq<Action>, more: seq<Action>)
    ensures |Observed(actions + more).handed| >= |Observed(actions).handed|
    decreases |more|
  {
    hide Run;
    if more == [] {
      assert actions + more == actions;
    } else {
      assert (actions + more)[..|actions + more| - 1] == actions + more[..|more| - 1];
      HandedStays(actions, more[..|more| - 1]);
    }
  }

  /** The upload worker finishes what it holds, and the callback worker too. */
  lemma WorkersEnd(actions: seq<Action>)
    ensures Run(actions).uploader.Holding? && Run(actions).producer.Idle? ==>
              Run(actions + [DestroyUploaded] + [FreeUploaded] + [Uncount]).uploader == Waiting
    ensures Run(actions).caller.Holding? ==> Run(actions + [OutputSlice] + [FreeOutput]).caller == Waiting
  {
    hide Run, Step, Inv, Safe;
    var a1 := actions + [DestroyUploaded];
    var a2 := a1 + [FreeUploaded];
    RunSnoc(actions, DestroyUploaded);
    RunSnoc(a1, FreeUploaded);
    RunSnoc(a2, Uncount);
    WorkersGoOn(Run(actions), DestroyUploaded);
    ProducerGoesOn(Run(actions), DestroyUploaded);
    WorkersGoOn(Run(a1), FreeUploaded);
    ProducerGoesOn(Run(a1), FreeUploaded);
    WorkersGoOn(Run(a2), Uncount);
    var b1 := actions + [OutputSlice];
    RunSnoc(actions, OutputSlice);
    RunSnoc(b1, FreeOutput);
    WorkersGoOn(Run(actions), OutputSlice);
    WorkersGoOn(Run(b1), FreeOutput);
  }
}
