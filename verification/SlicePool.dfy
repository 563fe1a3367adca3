/**
 The life of slice buffers between three threads: the producer that fills and
 hands over slices, the upload worker and the output-callback worker.

 Every action below is one critical section of the code, so a run is any
 interleaving at that grain. A buffer is a LinkCircleQueue over one of the four
 pool slots; its reference count is the nCount field.
 */
module SlicePool {
  import opened Bytes

  const SLOTS: nat := 4
  const MAX_CACHE: nat := 2
  const COMMAND_CAP: nat := 96
  const CALLBACK_CAP: nat := 24

  type Id = nat

  /** lost counts references that were given up without a decrement. */
  datatype Buffer = Buffer(slot: nat, count: int, bytes: nat, lost: nat)

  datatype Command = Upload(id: Id) | EndTime | DropNotice | OtherCommand

  /** LINK_TSU_UPLOAD and LINK_DROP_TS carry the slice to the callback worker. */
  datatype Callback = Output(id: Id) | OtherCallback

  /** Where the producer stands inside notifyDataPrapared; it holds uploadMutex_ unless Idle. */
  datatype Producer =
    | Idle
    | Referenced(id: Id)
    | EndPushed(id: Id)
    | UploadPushed(id: Id)
    | Dropping(id: Id)
    | ToCallback(id: Id, drop: bool)
    | Destroying(id: Id)
    | Freeing(id: Id)
    | Refilling

  datatype Worker = Waiting | Holding(id: Id) | Releasing(id: Id) | Uncounting

  datatype State = State(
    bufs: map<Id, Buffer>,
    next: Id,
    used: seq<bool>,
    current: Option<Id>,
    commands: seq<Command>,
    callbacks: seq<Callback>,
    cacheNum: int,
    producer: Producer,
    uploader: Worker,
    caller: Worker)

  datatype Action =
    | Append(bytes: nat) | BeginNotify | Announce | PushUpload | CountUpload | DropReference
    | PushCallback | DestroyDropped | FreeDropped | Refill
    | PopCommand | DestroyUploaded | FreeUploaded | Uncount
    | PopCallback | OutputSlice | FreeOutput
    | PushOtherCommand | PushOtherCallback

  function Init(): State {
    State(map[], 0, [false, false, false, false], None, [], [], 0, Idle, Waiting, Waiting)
  }

  /** allocTs: the first slot that is not in use. */
  function FreeSlot(used: seq<bool>): (r: Option<nat>)
    ensures r.Some? ==> r.value < |used| && !used[r.value] && forall i :: 0 <= i < r.value ==> used[i]
    ensures r.None? ==> forall i :: 0 <= i < |used| ==> used[i]
  {
    if used == [] then None
    else if !used[0] then Some(0)
    else
      match FreeSlot(used[1..])
      case None => None
      case Some(i) => Some(i + 1)
  }

  /** allocDataQueueAndUploadMeta: a fresh buffer with one reference, or none if the pool is empty. */
  function Allocate(s: State): State
    requires |s.used| == SLOTS
  {
    match FreeSlot(s.used)
    case None => s.(current := None)
    case Some(i) =>
      s.(bufs := s.bufs[s.next := Buffer(i, 1, 0, 0)], next := s.next + 1, used := s.used[i := true],
         current := Some(s.next))
  }

  function AddCount(s: State, id: Id, n: int): State
    requires id in s.bufs
  {
    s.(bufs := s.bufs[id := s.bufs[id].(count := s.bufs[id].count + n)])
  }

  function Lose(s: State, id: Id): State
    requires id in s.bufs
  {
    s.(bufs := s.bufs[id := s.bufs[id].(lost := s.bufs[id].lost + 1)])
  }

  /** freeTs clears the slot's flag; the queue object goes with it. */
  function Free(s: State, id: Id): State
    requires id in s.bufs && |s.used| == SLOTS && s.bufs[id].slot < SLOTS
  {
    s.(bufs := s.bufs - {id}, used := s.used[s.bufs[id].slot := false])
  }

  /** The buffers an action is about to touch are still allocated. */
  predicate Touchable(s: State, id: Id) {
    id in s.bufs && |s.used| == SLOTS && s.bufs[id].slot < SLOTS
  }

  // ---- the producer's actions

  function DoAppend(s: State, n: nat): State
    requires Safe(s)
  {
    if s.producer != Idle then s
    else
      var t := if s.current == None then Allocate(s) else s;
      if t.current == None then t
      else
        var id := t.current.value;
        t.(bufs := t.bufs[id := t.bufs[id].(bytes := t.bufs[id].bytes + n)])
  }

  function DoBeginNotify(s: State): State
    requires Safe(s)
  {
    if s.producer != Idle || s.current == None then s
    else
      var id := s.current.value;
      AddCount(s, id, 1).(current := None, producer := Referenced(id))
  }

  function DoAnnounce(s: State): State {
    if !s.producer.Referenced? then s
    else if s.cacheNum >= MAX_CACHE then
      PushCommandIfRoom(s, DropNotice).(producer := Dropping(s.producer.id))
    else if |s.commands| < COMMAND_CAP then
      s.(commands := s.commands + [EndTime], producer := EndPushed(s.producer.id))
    else s.(producer := Dropping(s.producer.id))
  }

  function DoPushUpload(s: State): State {
    if !s.producer.EndPushed? then s
    else if |s.commands| < COMMAND_CAP then
      s.(commands := s.commands + [Upload(s.producer.id)], producer := UploadPushed(s.producer.id))
    else s.(producer := Dropping(s.producer.id))
  }

  function DoCountUpload(s: State): State {
    if !s.producer.UploadPushed? then s
    else s.(cacheNum := s.cacheNum + 1, producer := ToCallback(s.producer.id, false))
  }

  function DoDropReference(s: State): State
    requires Safe(s)
  {
    if !s.producer.Dropping? then s
    else
      var id := s.producer.id;
      (if s.bufs[id].count > 1 then AddCount(s, id, -1) else s).(producer := ToCallback(id, true))
  }

  function DoPushCallback(s: State): State
    requires Safe(s)
  {
    if !s.producer.ToCallback? then s
    else if |s.callbacks| < CALLBACK_CAP then
      s.(callbacks := s.callbacks + [Output(s.producer.id)], producer := Refilling)
    else if s.producer.drop then s.(producer := Destroying(s.producer.id))
    else Lose(s, s.producer.id).(producer := Refilling)
  }

  function DoDestroyDropped(s: State): State
    requires Safe(s)
  {
    if !s.producer.Destroying? then s
    else
      var id := s.producer.id;
      AddCount(s, id, -1).(producer := if s.bufs[id].count - 1 > 0 then Refilling else Freeing(id))
  }

  function DoFreeDropped(s: State): State
    requires Safe(s)
  {
    if !s.producer.Freeing? then s else Free(s, s.producer.id).(producer := Refilling)
  }

  function DoRefill(s: State): State
    requires Safe(s)
  {
    if !s.producer.Refilling? then s else Allocate(s).(producer := Idle)
  }

  // ---- the upload worker's actions

  function DoPopCommand(s: State): State {
    if s.uploader != Waiting || s.commands == [] then s
    else s.(commands := s.commands[1..],
            uploader := if s.commands[0].Upload? then Holding(s.commands[0].id) else Waiting)
  }

  function DoDestroyUploaded(s: State): State
    requires Safe(s)
  {
    if !s.uploader.Holding? then s
    else
      var id := s.uploader.id;
      AddCount(s, id, -1).(uploader := if s.bufs[id].count - 1 > 0 then Uncounting else Releasing(id))
  }

  function DoFreeUploaded(s: State): State
    requires Safe(s)
  {
    if !s.uploader.Releasing? then s else Free(s, s.uploader.id).(uploader := Uncounting)
  }

  function DoUncount(s: State): State {
    if s.uploader != Uncounting || s.producer != Idle then s
    else s.(cacheNum := s.cacheNum - 1, uploader := Waiting)
  }

  // ---- the callback worker's actions

  function DoPopCallback(s: State): State {
    if s.caller != Waiting || s.callbacks == [] then s
    else s.(callbacks := s.callbacks[1..],
            caller := if s.callbacks[0].Output? then Holding(s.callbacks[0].id) else Waiting)
  }

  function DoOutputSlice(s: State): State
    requires Safe(s)
  {
    if !s.caller.Holding? then s
    else
      var id := s.caller.id;
      if s.bufs[id].bytes > 0 then
        AddCount(s, id, -1).(caller := if s.bufs[id].count - 1 > 0 then Waiting else Releasing(id))
      else Lose(s, id).(caller := Waiting)
  }

  function DoFreeOutput(s: State): State
    requires Safe(s)
  {
    if !s.caller.Releasing? then s else Free(s, s.caller.id).(caller := Waiting)
  }

  function DoOtherCallback(s: State): State {
    if |s.callbacks| < CALLBACK_CAP then s.(callbacks := s.callbacks + [OtherCallback]) else s
  }

  /**
   One action of one thread; an action that is not enabled leaves the state
   alone. A thread that reaches for a buffer that has been freed would be a
   use after free: Step is only defined while that cannot happen.
   */
  function Step(s: State, a: Action): State
    requires Safe(s)
  {
    match a
    case Append(n) => DoAppend(s, n)
    case BeginNotify => DoBeginNotify(s)
    case Announce => DoAnnounce(s)
    case PushUpload => DoPushUpload(s)
    case CountUpload => DoCountUpload(s)
    case DropReference => DoDropReference(s)
    case PushCallback => DoPushCallback(s)
    case DestroyDropped => DoDestroyDropped(s)
    case FreeDropped => DoFreeDropped(s)
    case Refill => DoRefill(s)
    case PopCommand => DoPopCommand(s)
    case DestroyUploaded => DoDestroyUploaded(s)
    case FreeUploaded => DoFreeUploaded(s)
    case Uncount => DoUncount(s)
    case PopCallback => DoPopCallback(s)
    case OutputSlice => DoOutputSlice(s)
    case FreeOutput => DoFreeOutput(s)
    case PushOtherCommand => PushCommandIfRoom(s, OtherCommand)
    case PushOtherCallback => DoOtherCallback(s)
  }

  function PushCommandIfRoom(s: State, c: Command): State {
    if |s.commands| < COMMAND_CAP then s.(commands := s.commands + [c]) else s
  }

  /** Every buffer some thread can reach in its next action is allocated. */
  predicate Safe(s: State) {
    && |s.used| == SLOTS
    && (s.current.Some? ==> Touchable(s, s.current.value))
    && (!s.producer.Idle? && !s.producer.Refilling? ==> Touchable(s, s.producer.id))
    && (s.uploader.Holding? || s.uploader.Releasing? ==> Touchable(s, s.uploader.id))
    && (s.caller.Holding? || s.caller.Releasing? ==> Touchable(s, s.caller.id))
  }

  // ---- who holds a reference

  function UploadsOf(cs: seq<Command>, id: Id): nat {
    if cs == [] then 0 else (if cs[0] == Upload(id) then 1 else 0) + UploadsOf(cs[1..], id)
  }

  function OutputsOf(cs: seq<Callback>, id: Id): nat {
    if cs == [] then 0 else (if cs[0] == Output(id) then 1 else 0) + OutputsOf(cs[1..], id)
  }

  function Uploads(cs: seq<Command>): nat {
    if cs == [] then 0 else (if cs[0].Upload? then 1 else 0) + Uploads(cs[1..])
  }

  /** The references the producer still owes to the queues, or will drop itself. */
  function ProducerHolds(p: Producer, id: Id): nat {
    match p
    case Referenced(i) => if i == id then 2 else 0
    case EndPushed(i) => if i == id then 2 else 0
    case Dropping(i) => if i == id then 2 else 0
    case UploadPushed(i) => if i == id then 1 else 0
    case ToCallback(i, _) => if i == id then 1 else 0
    case Destroying(i) => if i == id then 1 else 0
    case _ => 0
  }

  /** The number of holders of a buffer over all threads and queues. */
  function Holders(s: State, id: Id): nat {
    (if s.current == Some(id) then 1 else 0)
    + ProducerHolds(s.producer, id)
    + UploadsOf(s.commands, id) + (if s.uploader == Holding(id) then 1 else 0)
    + OutputsOf(s.callbacks, id) + (if s.caller == Holding(id) then 1 else 0)
  }

  /** The threads that have taken the count to zero and are about to free the slot. */
  function Freers(s: State, id: Id): nat {
    (if s.producer == Freeing(id) then 1 else 0)
    + (if s.uploader == Releasing(id) then 1 else 0)
    + (if s.caller == Releasing(id) then 1 else 0)
  }

  /** UPLOAD commands that are queued or being worked on. */
  function PendingUploads(s: State): nat {
    Uploads(s.commands) + (if s.uploader.Waiting? then 0 else 1)
  }

  ghost predicate CountsExact(s: State) {
    && (forall id {:trigger Holders(s, id)} :: id in s.bufs ==>
          && s.bufs[id].count == Holders(s, id) + s.bufs[id].lost
          && Freers(s, id) == (if s.bufs[id].count == 0 then 1 else 0))
    && (forall id {:trigger Holders(s, id)} :: id !in s.bufs ==> Holders(s, id) == 0 && Freers(s, id) == 0)
    && (forall id {:trigger id in s.bufs} :: id in s.bufs ==> id < s.next)
  }

  /** A slot is marked used exactly while one allocated buffer owns it. */
  ghost predicate SlotsExact(s: State) {
    && |s.used| == SLOTS
    && (forall id {:trigger id in s.bufs} :: id in s.bufs ==> s.bufs[id].slot < SLOTS && s.used[s.bufs[id].slot])
    && (forall id, jd {:trigger s.bufs[id], s.bufs[jd]} ::
          id in s.bufs && jd in s.bufs && s.bufs[id].slot == s.bufs[jd].slot ==> id == jd)
    && (forall i :: 0 <= i < SLOTS && s.used[i] ==> exists id :: id in s.bufs && s.bufs[id].slot == i)
  }

  ghost predicate CacheExact(s: State) {
    && s.cacheNum == PendingUploads(s) - (if s.producer.UploadPushed? then 1 else 0)
    && 0 <= s.cacheNum <= MAX_CACHE
    && (s.producer.EndPushed? || s.producer.UploadPushed? ==> s.cacheNum < MAX_CACHE)
    && !s.caller.Uncounting?
  }

  ghost predicate Inv(s: State) {
    CountsExact(s) && SlotsExact(s) && CacheExact(s) && (s.producer != Idle ==> s.current == None)
  }

  lemma InvIsSafe(s: State)
    requires Inv(s)
    ensures Safe(s)
  {
    if s.current.Some? {
      assert Holders(s, s.current.value) > 0;
    }
    if !s.producer.Idle? && !s.producer.Refilling? {
      assert Holders(s, s.producer.id) > 0 || Freers(s, s.producer.id) > 0;
    }
    if s.uploader.Holding? || s.uploader.Releasing? {
      assert Holders(s, s.uploader.id) > 0 || Freers(s, s.uploader.id) > 0;
    }
    if s.caller.Holding? || s.caller.Releasing? {
      assert Holders(s, s.caller.id) > 0 || Freers(s, s.caller.id) > 0;
    }
  }

  lemma {:induction false} UploadsAppend(cs: seq<Command>, c: Command, id: Id)
    ensures UploadsOf(cs + [c], id) == UploadsOf(cs, id) + (if c == Upload(id) then 1 else 0)
    ensures Uploads(cs + [c]) == Uploads(cs) + (if c.Upload? then 1 else 0)
    decreases |cs|
  {
    if cs != [] {
      assert (cs + [c])[1..] == cs[1..] + [c];
      UploadsAppend(cs[1..], c, id);
    }
  }

  lemma {:induction false} OutputsAppend(cs: seq<Callback>, c: Callback, id: Id)
    ensures OutputsOf(cs + [c], id) == OutputsOf(cs, id) + (if c == Output(id) then 1 else 0)
    decreases |cs|
  {
    if cs != [] {
      assert (cs + [c])[1..] == cs[1..] + [c];
      OutputsAppend(cs[1..], c, id);
    }
  }

  lemma InitInv()
    ensures Inv(Init())
  {}

  // ---- one lemma for each way the pool changes

  /** One buffer's count, losses and holders change together; the others keep theirs. */
  ghost predicate CountsChange(s: State, t: State, x: Id, count: int, lost: nat, freers: int) {
    && t.next == s.next && t.bufs.Keys == s.bufs.Keys
    && (forall id {:trigger id in s.bufs} :: id in s.bufs ==>
          && t.bufs[id].count == s.bufs[id].count + (if id == x then count else 0)
          && t.bufs[id].lost == s.bufs[id].lost + (if id == x then lost else 0)
          && t.bufs[id].slot == s.bufs[id].slot)
    && (forall id {:trigger Holders(t, id)} ::
          && Holders(t, id) == Holders(s, id) + (if id == x then count - lost else 0)
          && Freers(t, id) == Freers(s, id) + (if id == x then freers else 0))
  }

  lemma CountsMove(s: State, t: State, x: Id, count: int, lost: nat, freers: int)
    requires CountsExact(s) && CountsChange(s, t, x, count, lost, freers)
    requires x in s.bufs ==> freers == (if s.bufs[x].count + count == 0 then 1 else 0) - Freers(s, x)
    requires x !in s.bufs ==> count == lost && freers == 0
    ensures CountsExact(t)
  {
    hide Holders, Freers;
    forall id
      ensures id in t.bufs ==> t.bufs[id].count == Holders(t, id) + t.bufs[id].lost
                               && Freers(t, id) == (if t.bufs[id].count == 0 then 1 else 0)
      ensures id !in t.bufs ==> Holders(t, id) == 0 && Freers(t, id) == 0
    {
      assert Holders(t, id) == Holders(s, id) + (if id == x then count - lost else 0);
    }
  }

  lemma SlotsMove(s: State, t: State)
    requires SlotsExact(s) && t.used == s.used && t.bufs.Keys == s.bufs.Keys
    requires forall id :: id in s.bufs ==> t.bufs[id].slot == s.bufs[id].slot
    ensures SlotsExact(t)
  {
    forall i | 0 <= i < SLOTS && t.used[i]
      ensures exists id :: id in t.bufs && t.bufs[id].slot == i
    {
      var id :| id in s.bufs && s.bufs[id].slot == i;
      assert id in t.bufs && t.bufs[id].slot == i;
    }
  }

  lemma AllocateSlots(s: State)
    requires SlotsExact(s) && s.next !in s.bufs
    ensures SlotsExact(Allocate(s))
  {
    hide FreeSlot;
    var t := Allocate(s);
    if FreeSlot(s.used).Some? {
      var slot := FreeSlot(s.used).value;
      forall i | 0 <= i < SLOTS && t.used[i]
        ensures exists id :: id in t.bufs && t.bufs[id].slot == i
      {
        if i == slot {
          assert t.bufs[s.next].slot == i;
        } else {
          var id :| id in s.bufs && s.bufs[id].slot == i;
          assert id in t.bufs && t.bufs[id].slot == i;
        }
      }
    } else {
      SlotsMove(s, t);
    }
  }

  lemma FreeSlots(s: State, id: Id)
    requires SlotsExact(s) && id in s.bufs
    ensures SlotsExact(Free(s, id))
  {
    var t := Free(s, id);
    var slot := s.bufs[id].slot;
    forall jd | jd in t.bufs
      ensures t.bufs[jd] == s.bufs[jd] && t.bufs[jd].slot < SLOTS && t.bufs[jd].slot != slot
    {
      assert jd in s.bufs && jd != id;
    }
    forall i | 0 <= i < SLOTS && t.used[i]
      ensures exists jd :: jd in t.bufs && t.bufs[jd].slot == i
    {
      assert i != slot && s.used[i];
      var jd :| jd in s.bufs && s.bufs[jd].slot == i;
      assert jd in t.bufs && t.bufs[jd].slot == i;
    }
  }

  lemma AllocateCounts(s: State)
    requires CountsExact(s) && |s.used| == SLOTS && s.current == None
    ensures CountsExact(Allocate(s))
  {
    var t := Allocate(s);
    forall id
      ensures id in t.bufs ==> t.bufs[id].count == Holders(t, id) + t.bufs[id].lost
                               && Freers(t, id) == (if t.bufs[id].count == 0 then 1 else 0)
      ensures id !in t.bufs ==> Holders(t, id) == 0 && Freers(t, id) == 0
    {
      assert Holders(s, id) >= 0 && s.next !in s.bufs;
      assert Holders(t, id) == Holders(s, id) + (if t.current == Some(id) then 1 else 0);
      assert Freers(t, id) == Freers(s, id);
    }
  }

  lemma FreeCounts(s: State, t: State, id: Id)
    requires CountsExact(s) && id in s.bufs && s.bufs[id].count == 0
    requires t.bufs == s.bufs - {id} && t.next == s.next
    requires forall jd {:trigger Holders(t, jd)} :: Holders(t, jd) == Holders(s, jd)
    requires forall jd {:trigger Holders(t, jd)} :: Freers(t, jd) == if jd == id then 0 else Freers(s, jd)
    ensures CountsExact(t)
  {
    hide Holders, Freers;
    assert Holders(s, id) == 0;
    forall jd
      ensures jd in t.bufs ==> t.bufs[jd].count == Holders(t, jd) + t.bufs[jd].lost
                               && Freers(t, jd) == (if t.bufs[jd].count == 0 then 1 else 0)
      ensures jd !in t.bufs ==> Holders(t, jd) == 0 && Freers(t, jd) == 0
    {
      assert Holders(s, jd) == Holders(t, jd);
    }
  }

  lemma CountsAt(s: State, id: Id)
    requires CountsExact(s)
    ensures id in s.bufs ==> s.bufs[id].count == Holders(s, id) + s.bufs[id].lost
                             && Freers(s, id) == (if s.bufs[id].count == 0 then 1 else 0)
    ensures id !in s.bufs ==> Holders(s, id) == 0 && Freers(s, id) == 0
  {}

  lemma FreshId(s: State)
    requires CountsExact(s)
    ensures s.next !in s.bufs
  {}

  // ---- every action keeps the invariant

  /** A change that moves no reference and touches no buffer. */
  lemma Rearranged(s: State, t: State)
    requires CountsExact(s) && SlotsExact(s) && t.bufs == s.bufs && t.used == s.used && t.next == s.next
    requires forall id {:trigger Holders(t, id)} :: Holders(t, id) == Holders(s, id) && Freers(t, id) == Freers(s, id)
    ensures CountsExact(t) && SlotsExact(t)
  {
    hide Holders, Freers;
    forall id
      ensures id in t.bufs ==> t.bufs[id].count == Holders(t, id) + t.bufs[id].lost
                               && Freers(t, id) == (if t.bufs[id].count == 0 then 1 else 0)
      ensures id !in t.bufs ==> Holders(t, id) == 0 && Freers(t, id) == 0
    {
      assert Holders(t, id) == Holders(s, id);
    }
    SlotsMove(s, t);
  }

  /** A change to the references of one buffer. */
  lemma Recounted(s: State, t: State, x: Id, count: int, lost: nat, freers: int)
    requires CountsExact(s) && SlotsExact(s) && CountsChange(s, t, x, count, lost, freers) && t.used == s.used
    requires x in s.bufs && freers == (if s.bufs[x].count + count == 0 then 1 else 0) - Freers(s, x)
    ensures CountsExact(t) && SlotsExact(t)
  {
    hide Holders, Freers;
    CountsMove(s, t, x, count, lost, freers);
    SlotsMove(s, t);
  }

  lemma KeepsAllocate(s: State)
    requires Inv(s) && Safe(s) && s.current == None && s.producer == Idle
    ensures Inv(Allocate(s)) && Safe(Allocate(s))
  {
    FreshId(s);
    AllocateCounts(s);
    AllocateSlots(s);
    hide SlotsExact, CountsExact, UploadsOf, OutputsOf, Uploads, FreeSlot;
    assert CacheExact(Allocate(s)) && Allocate(s).producer == Idle;
    InvIsSafe(Allocate(s));
  }

  lemma KeepsAppend(s: State, n: nat)
    requires Inv(s) && Safe(s)
    ensures Inv(DoAppend(s, n))
  {
    hide SlotsExact, CountsExact, UploadsOf, OutputsOf, Uploads, FreeSlot, Allocate;
    if s.producer == Idle {
      if s.current == None {
        KeepsAllocate(s);
        AllocateIsIdle(s);
      }
      var u := if s.current == None then Allocate(s) else s;
      if u.current.Some? {
        KeepsBytes(u, n);
      }
    }
  }

  lemma AllocateIsIdle(s: State)
    requires |s.used| == SLOTS
    ensures Allocate(s).producer == s.producer
  {}

  lemma KeepsBytes(u: State, n: nat)
    requires Inv(u) && Safe(u) && u.current.Some?
    ensures var id := u.current.value;
            Inv(u.(bufs := u.bufs[id := u.bufs[id].(bytes := u.bufs[id].bytes + n)]))
  {
    hide SlotsExact, CountsExact, UploadsOf, OutputsOf, Uploads;
    var x := u.current.value;
    var t := u.(bufs := u.bufs[x := u.bufs[x].(bytes := u.bufs[x].bytes + n)]);
    forall id
      ensures Holders(t, id) == Holders(u, id) && Freers(t, id) == Freers(u, id)
    {}
    CountsAt(u, x);
    Recounted(u, t, x, 0, 0, 0);
  }

  lemma KeepsBegin(s: State)
    requires Inv(s) && Safe(s)
    ensures Inv(DoBeginNotify(s))
  {
    hide SlotsExact, CountsExact, UploadsOf, OutputsOf, Uploads;
    var t := DoBeginNotify(s);
    if s.producer == Idle && s.current.Some? {
      var x := s.current.value;
      forall id
        ensures Holders(t, id) == Holders(s, id) + (if id == x then 1 else 0) && Freers(t, id) == Freers(s, id)
      {}
      CountsAt(s, x);
      Recounted(s, t, x, 1, 0, 0);
    }
  }

  /** A command that carries no slice. */
  lemma KeepsQuietPush(s: State, c: Command)
    requires Inv(s) && !c.Upload?
    ensures Inv(PushCommandIfRoom(s, c))
  {
    hide SlotsExact, CountsExact, UploadsOf, OutputsOf, Uploads;
    var t := PushCommandIfRoom(s, c);
    forall id
      ensures Holders(t, id) == Holders(s, id) && Freers(t, id) == Freers(s, id)
    {
      UploadsAppend(s.commands, c, id);
    }
    UploadsAppend(s.commands, c, 0);
    Rearranged(s, t);
  }

  lemma KeepsAnnounce(s: State)
    requires Inv(s)
    ensures Inv(DoAnnounce(s))
  {
    hide SlotsExact, CountsExact, UploadsOf, OutputsOf, Uploads;
    if s.producer.Referenced? {
      var u := PushCommandIfRoom(s, if s.cacheNum >= MAX_CACHE then DropNotice else EndTime);
      KeepsQuietPush(s, if s.cacheNum >= MAX_CACHE then DropNotice else EndTime);
      var t := DoAnnounce(s);
      forall id
        ensures Holders(t, id) == Holders(u, id) && Freers(t, id) == Freers(u, id)
      {}
      Rearranged(u, t);
    }
  }

  lemma KeepsPushUpload(s: State)
    requires Inv(s)
    ensures Inv(DoPushUpload(s))
  {
    hide SlotsExact, CountsExact, UploadsOf, OutputsOf, Uploads;
    if s.producer.EndPushed? {
      var t, c := DoPushUpload(s), Upload(s.producer.id);
      forall id
        ensures Holders(t, id) == Holders(s, id) && Freers(t, id) == Freers(s, id)
      {
        UploadsAppend(s.commands, c, id);
      }
      UploadsAppend(s.commands, c, 0);
      Rearranged(s, t);
    }
  }

  lemma KeepsCount(s: State)
    requires Inv(s)
    ensures Inv(DoCountUpload(s))
  {
    hide SlotsExact, CountsExact, UploadsOf, OutputsOf, Uploads;
    var t := DoCountUpload(s);
    forall id
      ensures Holders(t, id) == Holders(s, id) && Freers(t, id) == Freers(s, id)
    {}
    Rearranged(s, t);
  }

  lemma KeepsDrop(s: State)
    requires Inv(s) && Safe(s)
    ensures Inv(DoDropReference(s))
  {
    hide SlotsExact, CountsExact, UploadsOf, OutputsOf, Uploads;
    var t := DoDropReference(s);
    if s.producer.Dropping? {
      var x := s.producer.id;
      CountsAt(s, x);
      assert Holders(s, x) >= 2;
      forall id
        ensures Holders(t, id) == Holders(s, id) - (if id == x then 1 else 0) && Freers(t, id) == Freers(s, id)
      {}
      Recounted(s, t, x, -1, 0, 0);
    }
  }

  lemma KeepsCallback(s: State)
    requires Inv(s) && Safe(s)
    ensures Inv(DoPushCallback(s))
  {
    hide SlotsExact, CountsExact, UploadsOf, OutputsOf, Uploads;
    var t := DoPushCallback(s);
    if s.producer.ToCallback? {
      var x := s.producer.id;
      CountsAt(s, x);
      assert Holders(s, x) >= 1;
      var lost := if |s.callbacks| >= CALLBACK_CAP && !s.producer.drop then 1 else 0;
      forall id
        ensures Holders(t, id) == Holders(s, id) - (if id == x then lost else 0) && Freers(t, id) == Freers(s, id)
      {
        OutputsAppend(s.callbacks, Output(x), id);
      }
      Recounted(s, t, x, 0, lost, 0);
    }
  }

  lemma KeepsDestroy(s: State)
    requires Inv(s) && Safe(s)
    ensures Inv(DoDestroyDropped(s))
  {
    hide SlotsExact, CountsExact, UploadsOf, OutputsOf, Uploads;
    var t := DoDestroyDropped(s);
    if s.producer.Destroying? {
      var x := s.producer.id;
      CountsAt(s, x);
      assert Holders(s, x) >= 1;
      var f := if s.bufs[x].count == 1 then 1 else 0;
      forall id
        ensures Holders(t, id) == Holders(s, id) - (if id == x then 1 else 0)
        ensures Freers(t, id) == Freers(s, id) + (if id == x then f else 0)
      {}
      Recounted(s, t, x, -1, 0, f);
    }
  }

  /** A slot given back by the thread that took the count to zero. */
  lemma KeepsFree(s: State, t: State, x: Id)
    requires CountsExact(s) && SlotsExact(s) && Freers(s, x) >= 1 && x in s.bufs && s.bufs[x].slot < SLOTS
    requires t.bufs == Free(s, x).bufs && t.used == Free(s, x).used && t.next == s.next
    requires forall id {:trigger Holders(t, id)} ::
               Holders(t, id) == Holders(s, id) && Freers(t, id) == Freers(s, id) - (if id == x then 1 else 0)
    ensures CountsExact(t) && SlotsExact(t)
  {
    hide Holders, Freers;
    assert Holders(s, x) >= 0;
    forall id
      ensures Holders(t, id) == Holders(s, id) && Freers(t, id) == (if id == x then 0 else Freers(s, id))
    {}
    FreeCounts(s, t, x);
    FreeSlots(s, x);
    SlotsMove(Free(s, x), t);
  }

  lemma KeepsFreeDropped(s: State)
    requires Inv(s) && Safe(s)
    ensures Inv(DoFreeDropped(s))
  {
    hide SlotsExact, CountsExact, UploadsOf, OutputsOf, Uploads;
    var t := DoFreeDropped(s);
    if s.producer.Freeing? {
      forall id
        ensures Holders(t, id) == Holders(s, id)
        ensures Freers(t, id) == Freers(s, id) - (if id == s.producer.id then 1 else 0)
      {}
      KeepsFree(s, t, s.producer.id);
    }
  }

  lemma KeepsFreeUploaded(s: State)
    requires Inv(s) && Safe(s)
    ensures Inv(DoFreeUploaded(s))
  {
    hide SlotsExact, CountsExact, UploadsOf, OutputsOf, Uploads;
    var t := DoFreeUploaded(s);
    if s.uploader.Releasing? {
      forall id
        ensures Holders(t, id) == Holders(s, id)
        ensures Freers(t, id) == Freers(s, id) - (if id == s.uploader.id then 1 else 0)
      {}
      KeepsFree(s, t, s.uploader.id);
    }
  }

  lemma KeepsFreeOutput(s: State)
    requires Inv(s) && Safe(s)
    ensures Inv(DoFreeOutput(s))
  {
    hide SlotsExact, CountsExact, UploadsOf, OutputsOf, Uploads;
    var t := DoFreeOutput(s);
    if s.caller.Releasing? {
      forall id
        ensures Holders(t, id) == Holders(s, id)
        ensures Freers(t, id) == Freers(s, id) - (if id == s.caller.id then 1 else 0)
      {}
      KeepsFree(s, t, s.caller.id);
    }
  }

  lemma KeepsRefill(s: State)
    requires Inv(s) && Safe(s)
    ensures Inv(DoRefill(s))
  {
    hide SlotsExact, CountsExact, UploadsOf, OutputsOf, Uploads, FreeSlot;
    var t := DoRefill(s);
    if s.producer.Refilling? {
      FreshId(s);
      var u := Allocate(s);
      AllocateCounts(s);
      AllocateSlots(s);
      forall id
        ensures Holders(t, id) == Holders(u, id) && Freers(t, id) == Freers(u, id)
      {}
      Rearranged(u, t);
    }
  }

  lemma UploadsPop(cs: seq<Command>, id: Id)
    requires cs != []
    ensures UploadsOf(cs, id) == UploadsOf(cs[1..], id) + (if cs[0] == Upload(id) then 1 else 0)
    ensures Uploads(cs) == Uploads(cs[1..]) + (if cs[0].Upload? then 1 else 0)
  {}

  /** Popping hands the queue's reference to the worker. */
  lemma KeepsPopCommand(s: State)
    requires Inv(s)
    ensures Inv(DoPopCommand(s))
  {
    hide SlotsExact, CountsExact, UploadsOf, OutputsOf, Uploads;
    var t := DoPopCommand(s);
    if s.uploader == Waiting && s.commands != [] {
      forall id
        ensures Holders(t, id) == Holders(s, id) && Freers(t, id) == Freers(s, id)
      {
        UploadsPop(s.commands, id);
      }
      UploadsPop(s.commands, 0);
      Rearranged(s, t);
    }
  }

  lemma OutputsPop(cs: seq<Callback>, id: Id)
    requires cs != []
    ensures OutputsOf(cs, id) == OutputsOf(cs[1..], id) + (if cs[0] == Output(id) then 1 else 0)
  {}

  lemma KeepsPopCallback(s: State)
    requires Inv(s)
    ensures Inv(DoPopCallback(s))
  {
    hide SlotsExact, CountsExact, UploadsOf, OutputsOf, Uploads;
    var t := DoPopCallback(s);
    if s.caller == Waiting && s.callbacks != [] {
      forall id
        ensures Holders(t, id) == Holders(s, id) && Freers(t, id) == Freers(s, id)
      {
        OutputsPop(s.callbacks, id);
      }
      Rearranged(s, t);
    }
  }

  lemma KeepsUploaded(s: State)
    requires Inv(s) && Safe(s)
    ensures Inv(DoDestroyUploaded(s))
  {
    hide SlotsExact, CountsExact, UploadsOf, OutputsOf, Uploads;
    var t := DoDestroyUploaded(s);
    if s.uploader.Holding? {
      var x := s.uploader.id;
      CountsAt(s, x);
      var f := if s.bufs[x].count == 1 then 1 else 0;
      forall id
        ensures Holders(t, id) == Holders(s, id) - (if id == x then 1 else 0)
        ensures Freers(t, id) == Freers(s, id) + (if id == x then f else 0)
      {}
      Recounted(s, t, x, -1, 0, f);
    }
  }

  lemma KeepsOutput(s: State)
    requires Inv(s) && Safe(s)
    ensures Inv(DoOutputSlice(s))
  {
    hide SlotsExact, CountsExact, UploadsOf, OutputsOf, Uploads;
    var t := DoOutputSlice(s);
    if s.caller.Holding? {
      var x := s.caller.id;
      CountsAt(s, x);
      var empty := s.bufs[x].bytes == 0;
      var f := if !empty && s.bufs[x].count == 1 then 1 else 0;
      forall id
        ensures Holders(t, id) == Holders(s, id) - (if id == x then 1 else 0)
        ensures Freers(t, id) == Freers(s, id) + (if id == x then f else 0)
      {}
      Recounted(s, t, x, if empty then 0 else -1, if empty then 1 else 0, f);
    }
  }

  lemma KeepsUncount(s: State)
    requires Inv(s)
    ensures Inv(DoUncount(s))
  {
    hide SlotsExact, CountsExact, UploadsOf, OutputsOf, Uploads;
    var t := DoUncount(s);
    forall id
      ensures Holders(t, id) == Holders(s, id) && Freers(t, id) == Freers(s, id)
    {}
    Rearranged(s, t);
  }

  lemma KeepsOtherCallback(s: State)
    requires Inv(s)
    ensures Inv(DoOtherCallback(s))
  {
    hide SlotsExact, CountsExact, UploadsOf, OutputsOf, Uploads;
    var t := DoOtherCallback(s);
    forall id
      ensures Holders(t, id) == Holders(s, id) && Freers(t, id) == Freers(s, id)
    {
      OutputsAppend(s.callbacks, OtherCallback, id);
    }
    Rearranged(s, t);
  }

  /** One action of any thread keeps the whole invariant. */
  lemma StepKeepsInv(s: State, a: Action)
    requires Inv(s) && Safe(s)
    ensures Inv(Step(s, a))
  {
    hide Inv, Safe, DoAppend, DoBeginNotify, DoAnnounce, DoPushUpload, DoCountUpload, DoDropReference, DoPushCallback,
      DoDestroyDropped, DoFreeDropped, DoRefill, DoPopCommand, DoDestroyUploaded, DoFreeUploaded, DoUncount,
      DoPopCallback, DoOutputSlice, DoFreeOutput, DoOtherCallback;
    match a
    case Append(n) => KeepsAppend(s, n);
    case BeginNotify => KeepsBegin(s);
    case Announce => KeepsAnnounce(s);
    case PushUpload => KeepsPushUpload(s);
    case CountUpload => KeepsCount(s);
    case DropReference => KeepsDrop(s);
    case PushCallback => KeepsCallback(s);
    case DestroyDropped => KeepsDestroy(s);
    case FreeDropped => KeepsFreeDropped(s);
    case Refill => KeepsRefill(s);
    case PopCommand => KeepsPopCommand(s);
    case DestroyUploaded => KeepsUploaded(s);
    case FreeUploaded => KeepsFreeUploaded(s);
    case Uncount => KeepsUncount(s);
    case PopCallback => KeepsPopCallback(s);
    case OutputSlice => KeepsOutput(s);
    case FreeOutput => KeepsFreeOutput(s);
    case PushOtherCommand => KeepsQuietPush(s, OtherCommand);
    case PushOtherCallback => KeepsOtherCallback(s);
  }

  // ---- all interleavings

  /** The state after any sequence of actions, whichever threads they belong to. */
  ghost function Run(actions: seq<Action>): (s: State)
    ensures Inv(s) && Safe(s)
    decreases |actions|
  {
    if actions == [] then
      InitInv();
      Init()
    else
      var before := Run(actions[..|actions| - 1]);
      StepKeepsInv(before, actions[|actions| - 1]);
      InvIsSafe(Step(before, actions[|actions| - 1]));
      Step(before, actions[|actions| - 1])
  }

  /** Whatever a thread or a queue refers to is still allocated, in a slot that is marked used. */
  lemma NoUseAfterFree(actions: seq<Action>, id: Id)
    requires Holders(Run(actions), id) > 0 || Freers(Run(actions), id) > 0
    ensures var s := Run(actions);
            id in s.bufs && s.bufs[id].slot < SLOTS && s.used[s.bufs[id].slot]
  {
    CountsAt(Run(actions), id);
  }

  lemma {:induction false} QueuedUpload(cs: seq<Command>, i: nat)
    requires i < |cs| && cs[i].Upload?
    ensures UploadsOf(cs, cs[i].id) > 0
    decreases |cs|
  {
    if i > 0 {
      QueuedUpload(cs[1..], i - 1);
    }
  }

  lemma {:induction false} QueuedOutput(cs: seq<Callback>, i: nat)
    requires i < |cs| && cs[i].Output?
    ensures OutputsOf(cs, cs[i].id) > 0
    decreases |cs|
  {
    if i > 0 {
      QueuedOutput(cs[1..], i - 1);
    }
  }

  /** Every slice in either queue is allocated, so the worker that pops it finds its bytes. */
  lemma QueuedSlicesAreAllocated(actions: seq<Action>)
    ensures var s := Run(actions);
            && (forall i :: 0 <= i < |s.commands| && s.commands[i].Upload? ==> s.commands[i].id in s.bufs)
            && (forall i :: 0 <= i < |s.callbacks| && s.callbacks[i].Output? ==> s.callbacks[i].id in s.bufs)
  {
    var s := Run(actions);
    hide Run, Inv;
    forall i | 0 <= i < |s.commands| && s.commands[i].Upload?
      ensures s.commands[i].id in s.bufs
    {
      QueuedUpload(s.commands, i);
      NoUseAfterFree(actions, s.commands[i].id);
    }
    forall i | 0 <= i < |s.callbacks| && s.callbacks[i].Output?
      ensures s.callbacks[i].id in s.bufs
    {
      QueuedOutput(s.callbacks, i);
      NoUseAfterFree(actions, s.callbacks[i].id);
    }
  }

  /** The count is never below the number of holders, and equals it exactly when no reference was lost. */
  lemma CountCoversHolders(actions: seq<Action>, id: Id)
    requires id in Run(actions).bufs
    ensures var s := Run(actions);
            && s.bufs[id].count >= Holders(s, id)
            && (s.bufs[id].count == Holders(s, id) <==> s.bufs[id].lost == 0)
  {
    CountsAt(Run(actions), id);
  }

  /** A pool slot is marked used exactly while one buffer owns it. */
  lemma SlotHasOneOwner(actions: seq<Action>, i: nat)
    requires i < 4
    ensures var s := Run(actions);
            && |s.used| == 4
            && (s.used[i] <==> exists id :: id in s.bufs && s.bufs[id].slot == i)
            && (forall id, jd :: id in s.bufs && jd in s.bufs && s.bufs[id].slot == i && s.bufs[jd].slot == i ==>
                id == jd)
  {}

  /** nTsCacheNum is the number of uploads queued or in progress, except between a push and its counting. */
  lemma CacheNumberIsPending(actions: seq<Action>)
    ensures var s := Run(actions);
            && 0 <= s.cacheNum <= 2
            && PendingUploads(s) == s.cacheNum + (if s.producer.UploadPushed? then 1 else 0)
            && PendingUploads(s) <= 2
  {}

  /** The two ways a reference is lost: a full callback queue, or an empty slice at the callback worker. */
  predicate Loses(s: State, a: Action, id: Id) {
    || (a == PushCallback && s.producer == ToCallback(id, false) && |s.callbacks| >= CALLBACK_CAP)
    || (a == OutputSlice && s.caller == Holding(id) && id in s.bufs && s.bufs[id].bytes == 0)
  }

  lemma LossIsExact(s: State, a: Action, id: Id)
    requires Inv(s) && Safe(s) && id in s.bufs && id in Step(s, a).bufs
    ensures Step(s, a).bufs[id].lost == s.bufs[id].lost + (if Loses(s, a, id) then 1 else 0)
  {
    hide SlotsExact, CountsExact, UploadsOf, OutputsOf, Uploads, FreeSlot;
    FreshId(s);
  }

  ghost predicate Lossless(actions: seq<Action>) {
    forall k, id {:trigger Loses(Run(actions[..k]), actions[k], id)} ::
      0 <= k < |actions| ==> !Loses(Run(actions[..k]), actions[k], id)
  }

  /** When no callback push is refused and no slice is empty, every count is exactly its number of holders. */
  lemma {:induction false} LosslessCountsExact(actions: seq<Action>, id: Id)
    requires Lossless(actions) && id in Run(actions).bufs
    ensures Run(actions).bufs[id].count == Holders(Run(actions), id)
    decreases |actions|
  {
    NothingLost(actions, id);
    CountCoversHolders(actions, id);
  }

  lemma {:induction false} NothingLost(actions: seq<Action>, id: Id)
    requires Lossless(actions) && id in Run(actions).bufs
    ensures Run(actions).bufs[id].lost == 0
    decreases |actions|
  {
    hide Step, Inv, Safe, Loses;
    if actions != [] {
      var k := |actions| - 1;
      var init, a := actions[..k], actions[k];
      var s := Run(init);
      forall j, jd | 0 <= j < |init|
        ensures !Loses(Run(init[..j]), init[j], jd)
      {
        assert init[..j] == actions[..j];
        assert !Loses(Run(actions[..j]), actions[j], jd);
      }
      assert !Loses(Run(actions[..k]), actions[k], id);
      if id in s.bufs {
        NothingLost(init, id);
        LossIsExact(s, a, id);
      } else {
        NewBuffer(s, a, id);
      }
    }
  }

  lemma NewBuffer(s: State, a: Action, id: Id)
    requires Inv(s) && Safe(s) && id !in s.bufs && id in Step(s, a).bufs
    ensures Step(s, a).bufs[id].lost == 0
  {
    hide SlotsExact, CountsExact, UploadsOf, OutputsOf, Uploads, FreeSlot;
  }

  /** A lost reference is permanent: its buffer, and so its pool slot, is never released again. */
  lemma LossIsPermanent(s: State, a: Action, id: Id)
    requires Inv(s) && Safe(s) && id in s.bufs && s.bufs[id].lost > 0
    ensures id in Step(s, a).bufs && Step(s, a).bufs[id].lost > 0 && Step(s, a).bufs[id].slot == s.bufs[id].slot
  {
    hide SlotsExact, CountsExact, UploadsOf, OutputsOf, Uploads, FreeSlot;
    FreshId(s);
    CountsAt(s, id);
  }

  /** ... in any continuation of the run. */
  lemma {:induction false} LossLastsForever(actions: seq<Action>, more: seq<Action>, id: Id)
    requires id in Run(actions).bufs && Run(actions).bufs[id].lost > 0
    ensures id in Run(actions + more).bufs && Run(actions + more).bufs[id].lost > 0
    ensures Run(actions + more).used[Run(actions).bufs[id].slot]
    ensures Run(actions + more).bufs[id].slot == Run(actions).bufs[id].slot
    decreases |more|
  {
    hide Step, CountsExact, CacheExact, Safe;
    if more == [] {
      assert actions + more == actions;
    } else {
      var init, a := more[..|more| - 1], more[|more| - 1];
      var all := actions + more;
      assert all[..|all| - 1] == actions + init;
      LossLastsForever(actions, init, id);
      LossIsPermanent(Run(actions + init), a, id);
    }
  }

  lemma RunSnoc(actions: seq<Action>, a: Action)
    ensures Run(actions + [a]) == Step(Run(actions), a)
  {
    hide Step, Inv, Safe;
    assert (actions + [a])[..|actions|] == actions;
  }

  /**
   With every slot taken a push finds no buffer, and as soon as the callback worker has freed a slot the next one does:
   nothing keeps a slot from being freed between two packets of one frame, or between the tables and the frame.
   */
  lemma FreedBetweenPushes(actions: seq<Action>, m: nat, n: nat)
    requires var s := Run(actions);
             s.producer == Idle && s.current == None && FreeSlot(s.used) == None && s.caller.Releasing?
    ensures Run(actions + [Append(m)]).current == None
    ensures Run(actions + [Append(m)] + [FreeOutput] + [Append(n)]).current.Some?
  {
    hide Run, Inv;
    var s := Run(actions);
    RunSnoc(actions, Append(m));
    RunSnoc(actions + [Append(m)], FreeOutput);
    RunSnoc(actions + [Append(m)] + [FreeOutput], Append(n));
    SlotIsFreed(s, s.caller.id);
  }

  lemma SlotIsFreed(s: State, id: Id)
    requires Touchable(s, id)
    ensures FreeSlot(Free(s, id).used).Some?
  {
    var t := Free(s, id);
    assert !t.used[s.bufs[id].slot];
  }
}
