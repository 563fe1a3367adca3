/**
 The fixed-length ring: length-prefixed items in one byte buffer, read in parts.
 */
module CircleQueue {
  import opened Bytes
  import opened Digest

  const PREFIX: nat := 4
  const NO_PUSH: int := -2001
  const Q_OVERWRIT: int := -5001
  const Q_OVERFLOW: int := -5005
  const TIMEOUT: int := -2000

  datatype Policy = FixLength | CanOverwrite

  datatype Mode = Open | ReadOnly | TimedOut

  /** What a queue is to its users: the items in order, and the statistics. */
  datatype State = State(
    items: seq<seq<Byte>>,
    cap: nat,
    policy: Policy,
    mode: Mode,
    availableAfterTimeout: bool,
    pushed: int,
    popped: int,
    dropped: int,
    overwrites: nat
  )

  /** PushQueue: the new state and the result. */
  function PushStep(s: State, d: seq<Byte>): (State, int)
    requires s.cap > 0
  {
    if !s.availableAfterTimeout && s.mode == TimedOut then (s.(dropped := s.dropped + |d|), 0)
    else if s.mode == ReadOnly then (s.(dropped := s.dropped + |d|), NO_PUSH)
    else if |s.items| < s.cap then (s.(items := s.items + [d], pushed := s.pushed + |d|), |d|)
    else if s.policy == FixLength then (s, Q_OVERFLOW)
    else (s.(items := s.items[1..] + [d], pushed := s.pushed + |d|, overwrites := s.overwrites + 1), Q_OVERWRIT)
  }

  /**
   PopQueue: the new state, the result and the bytes read; an empty queue is waited on, in vain or until a wake-up
   without an item.
   */
  function PopStep(s: State, bufLen: nat, expired: bool): (State, int, seq<Byte>) {
    if s.overwrites > 0 then (s, Q_OVERWRIT, [])
    else if !s.availableAfterTimeout && s.mode == TimedOut then (s, TIMEOUT, [])
    else if s.items == [] then
      if s.mode == ReadOnly || !expired then (s, 0, []) else (s.(mode := TimedOut), TIMEOUT, [])
    else
      var item := s.items[0];
      if |item| > bufLen then
        (s.(items := [item[bufLen..]] + s.items[1..], popped := s.popped + bufLen), bufLen, item[..bufLen])
      else (s.(items := s.items[1..], popped := s.popped + |item|), |item|, item)
  }

  // ---- the ring in the buffer

  /** The slot k places after start. */
  function Slot(start: nat, k: nat, cap: nat): (r: nat)
    requires start < cap && k <= cap
    ensures r < cap
  {
    if start + k < cap then start + k else start + k - cap
  }

  /** The slot holds the item behind its length. */
  predicate Holds(bytes: seq<Byte>, itemLen: nat, slot: nat, item: seq<Byte>) {
    var at := slot * itemLen;
    && 0 <= at && PREFIX + |item| <= itemLen && |item| < 0x8000_0000 && at + itemLen <= |bytes|
    && bytes[at..at + PREFIX] == LittleEndian(|item|) && bytes[at + PREFIX..at + PREFIX + |item|] == item
  }

  lemma SlotsApart(i: nat, j: nat, n: nat)
    requires i < j
    ensures 0 <= i * n && i * n + n <= j * n
  {
    Product(i, n);
    if j > i + 1 {
      SlotsApart(i, j - 1, n);
      assert j * n == (j - 1) * n + n;
    }
  }

  lemma Product(i: nat, n: nat)
    ensures 0 <= i * n && (i + 1) * n == i * n + n
  {}

  lemma SlotInside(i: nat, cap: nat, n: nat)
    requires i < cap
    ensures 0 <= i * n && i * n + n <= cap * n
  {
    SlotsApart(i, cap, n);
  }

  /** Writing inside one slot leaves the others alone. */
  lemma OtherSlot(bytes: seq<Byte>, itemLen: nat, slot: nat, item: seq<Byte>, other: nat, at: nat, d: seq<Byte>)
    requires Holds(bytes, itemLen, slot, item) && other != slot
    requires 0 <= other * itemLen <= at && at + |d| <= other * itemLen + itemLen && at + |d| <= |bytes|
    ensures Holds(Splice(bytes, at, d), itemLen, slot, item)
  {
    hide LittleEndian;
    SlotsApart(if slot < other then slot else other, if slot < other then other else slot, itemLen);
    var t, from := Splice(bytes, at, d), slot * itemLen;
    assert t[from..from + PREFIX] == bytes[from..from + PREFIX];
    assert t[from + PREFIX..from + PREFIX + |item|] == bytes[from + PREFIX..from + PREFIX + |item|];
  }

  class Ring {
    const data: array<Byte>
    const cap: nat
    const itemLen: nat
    const policy: Policy
    const isAvailableAfterTimeout: bool
    var len: nat
    var start: nat
    var end: nat
    var mode: Mode
    var pushDataBytes: int
    var popDataBytes: int
    var dropped: int
    var overwriteCnt: nat
    ghost var items: seq<seq<Byte>>

    ghost predicate Shape()
      reads this
    {
      && cap > 0 && itemLen >= PREFIX && data.Length == cap * itemLen && itemLen < 0x8000_0000
      && start < cap && len <= cap && end == Slot(start, len, cap) && |items| == len
    }

    ghost predicate Valid()
      reads this, data
    {
      Shape() && forall k :: 0 <= k < len ==> Holds(data[..], itemLen, Slot(start, k, cap), items[k])
    }

    ghost function View(): State
      reads this
    {
      State(items, cap, policy, mode, isAvailableAfterTimeout, pushDataBytes, popDataBytes, dropped, overwriteCnt)
    }

    constructor (availableAfterTimeout: bool, policy: Policy, maxItemLen: nat, initItemCount: nat)
      requires maxItemLen >= 1 && initItemCount >= 1 && maxItemLen < 0x7000_0000
      ensures Valid() && fresh(data)
      ensures View() == State([], initItemCount, policy, Open, availableAfterTimeout, 0, 0, 0, 0)
      ensures itemLen == maxItemLen + PREFIX
    {
      cap, this.policy, isAvailableAfterTimeout := initItemCount, policy, availableAfterTimeout;
      itemLen := maxItemLen + PREFIX;
      data := new Byte[initItemCount * (maxItemLen + PREFIX)];
      len, start, end, mode, items := 0, 0, 0, Open, [];
      pushDataBytes, popDataBytes, dropped, overwriteCnt := 0, 0, 0, 0;
    }

    /** The two memcpys of a push: the length and the bytes, at a slot. */
    method StoreAt(slot: nat, d: seq<Byte>)
      requires itemLen < 0x8000_0000 && data.Length == cap * itemLen && slot < cap && |d| <= itemLen - PREFIX
      modifies data
      ensures Holds(data[..], itemLen, slot, d)
      ensures 0 <= slot * itemLen && slot * itemLen + itemLen <= data.Length
      ensures data[..] == Splice(old(data[..]), slot * itemLen, LittleEndian(|d|) + d)
    {
      hide LittleEndian;
      SlotInside(slot, cap, itemLen);
      var at := slot * itemLen;
      ghost var was := data[..];
      Memcpy(data, at, LittleEndian(|d|));
      Memcpy(data, at + PREFIX, d);
      SpliceTwice(was, at, LittleEndian(|d|), d);
      SpliceAt(was, at, LittleEndian(|d|) + d);
      ghost var both := data[at..at + PREFIX + |d|];
      assert data[at..at + PREFIX] == both[..PREFIX] && data[at + PREFIX..at + PREFIX + |d|] == both[PREFIX..];
    }

    /** PushQueue, for a bounded ring. */
    method Push(d: seq<Byte>) returns (ret: int)
      requires Valid() && |d| <= itemLen - PREFIX
      modifies this, data
      ensures Valid() && (View(), ret) == PushStep(old(View()), d)
    {
      if !isAvailableAfterTimeout && mode == TimedOut {
        dropped := dropped + |d|;
        return 0;
      }
      if mode == ReadOnly {
        dropped := dropped + |d|;
        return NO_PUSH;
      }
      var pos := end;
      if len < cap {
        Append(d);
        return |d|;
      }
      if policy == FixLength {
        return Q_OVERFLOW;
      }
      Overwrite(d);
      ret := Q_OVERWRIT;
    }

    method Append(d: seq<Byte>)
      requires Valid() && |d| <= itemLen - PREFIX && len < cap
      modifies this`end, this`len, this`pushDataBytes, this`items, data
      ensures Valid() && View() == old(View()).(items := old(items) + [d], pushed := old(pushDataBytes) + |d|)
    {
      hide Holds, LittleEndian;
      ghost var was := data[..];
      var pos := end;
      end := if end + 1 == cap then 0 else end + 1;
      StoreAt(pos, d);
      Untouched(was, pos, d, 0, len);
      len := len + 1;
      items := items + [d];
      pushDataBytes := pushDataBytes + |d|;
    }

    /** A full ring: the new item takes the place of the oldest one. */
    method Overwrite(d: seq<Byte>)
      requires Valid() && |d| <= itemLen - PREFIX && len == cap
      modifies this`start, this`end, this`pushDataBytes, this`overwriteCnt, this`items, data
      ensures Valid()
      ensures View() == old(View()).(items := old(items)[1..] + [d], pushed := old(pushDataBytes) + |d|,
                                     overwrites := old(overwriteCnt) + 1)
    {
      hide Holds, LittleEndian;
      ghost var was := data[..];
      var pos := end;
      StoreAt(pos, d);
      Untouched(was, pos, d, 1, len);
      if end + 1 == cap {
        end, start := 0, 0;
      } else {
        end, start := end + 1, start + 1;
      }
      items := items[1..] + [d];
      pushDataBytes := pushDataBytes + |d|;
      overwriteCnt := overwriteCnt + 1;
    }

    /** The items from lo to hi are still in their slots after a store elsewhere. */
    lemma Untouched(was: seq<Byte>, pos: nat, d: seq<Byte>, lo: nat, hi: nat)
      requires 0 < cap && start < cap && lo <= hi <= cap && hi <= |items| && pos < cap
      requires forall k :: lo <= k < hi ==> Slot(start, k, cap) != pos
      requires |d| <= itemLen - PREFIX && itemLen < 0x8000_0000 && 0 <= pos * itemLen
      requires pos * itemLen + itemLen <= |was|
      requires forall k :: lo <= k < hi ==> Holds(was, itemLen, Slot(start, k, cap), items[k])
      ensures forall k :: lo <= k < hi ==>
              Holds(Splice(was, pos * itemLen, LittleEndian(|d|) + d), itemLen, Slot(start, k, cap), items[k])
    {
      hide Holds, LittleEndian;
      forall k | lo <= k < hi
        ensures Holds(Splice(was, pos * itemLen, LittleEndian(|d|) + d), itemLen, Slot(start, k, cap), items[k])
      {
        OtherSlot(was, itemLen, Slot(start, k, cap), items[k], pos, pos * itemLen, LittleEndian(|d|) + d);
      }
    }

    /** PopQueue: up to bufLen bytes of the oldest item; expired says how a wait on an empty queue ends. */
    method Pop(bufLen: nat, expired: bool) returns (ret: int, buf: seq<Byte>)
      requires Valid()
      modifies this, data
      ensures Valid() && (View(), ret, buf) == PopStep(old(View()), bufLen, expired)
    {
      hide Holds, LittleEndian;
      if overwriteCnt > 0 {
        return Q_OVERWRIT, [];
      }
      if !isAvailableAfterTimeout && mode == TimedOut {
        return TIMEOUT, [];
      }
      if mode == ReadOnly && len == 0 {
        return 0, [];
      }
      if len == 0 {
        if expired {
          mode := TimedOut;
          return TIMEOUT, [];
        }
        return 0, [];
      }
      assert Holds(data[..], itemLen, Slot(start, 0, cap), items[0]);
      var size := SizeAt(start, items[0]);
      var remain := size - bufLen;
      if remain > 0 {
        buf := PopPart(bufLen);
        ret := bufLen;
      } else {
        buf := PopWhole(size);
        ret := size;
      }
    }

    /** The length in front of a slot. */
    method SizeAt(slot: nat, ghost item: seq<Byte>) returns (n: nat)
      requires Holds(data[..], itemLen, slot, item)
      ensures n == |item|
    {
      hide LittleEndian;
      var at := slot * itemLen;
      var b := data[at..at + PREFIX];
      assert b == data[..][at..at + PREFIX];
      WordOfBytes(|item|);
      n := ((b[3] as int * 256 + b[2]) * 256 + b[1]) * 256 + b[0];
    }

    /** The bytes behind the length. */
    method BytesAt(slot: nat, from: nat, to: nat, ghost item: seq<Byte>) returns (d: seq<Byte>)
      requires Holds(data[..], itemLen, slot, item) && from <= to <= |item|
      ensures d == item[from..to]
    {
      hide LittleEndian;
      var at := slot * itemLen + PREFIX;
      d := data[at + from..at + to];
      assert d == data[..][at..at + |item|][from..to];
    }

    method PopWhole(size: nat) returns (buf: seq<Byte>)
      requires Valid() && len > 0 && size == |items[0]|
      modifies this`start, this`len, this`popDataBytes, this`items
      ensures Valid() && View() == old(View()).(items := old(items)[1..], popped := old(popDataBytes) + size)
      ensures buf == old(items)[0]
    {
      hide LittleEndian, Holds;
      assert Holds(data[..], itemLen, Slot(start, 0, cap), items[0]);
      buf := BytesAt(start, 0, size, items[0]);
      ghost var was := start;
      start := if start + 1 == cap then 0 else start + 1;
      len := len - 1;
      items := items[1..];
      popDataBytes := popDataBytes + size;
      forall k | 0 <= k < len
        ensures Holds(data[..], itemLen, Slot(start, k, cap), items[k])
      {
        assert Slot(start, k, cap) == Slot(was, k + 1, cap);
      }
    }

    /** A part of an item: the rest moves to the front of its slot. */
    method PopPart(bufLen: nat) returns (buf: seq<Byte>)
      requires Valid() && len > 0 && |items[0]| > bufLen
      modifies this`popDataBytes, this`items, data
      ensures Valid()
      ensures View() == old(View()).(items := [old(items)[0][bufLen..]] + old(items)[1..],
                                     popped := old(popDataBytes) + bufLen)
      ensures buf == old(items)[0][..bufLen]
    {
      hide LittleEndian, Holds;
      ghost var item := items[0];
      assert Holds(data[..], itemLen, Slot(start, 0, cap), item);
      ItemFits(data[..], start, item);
      var size := SizeAt(start, item);
      buf := BytesAt(start, 0, bufLen, item);
      var rest := BytesAt(start, bufLen, size, item);
      assert rest == item[bufLen..] && item[0..bufLen] == item[..bufLen];
      ReplaceFirst(rest);
      popDataBytes := popDataBytes + bufLen;
    }

    method ReplaceFirst(rest: seq<Byte>)
      requires Valid() && len > 0 && |rest| <= itemLen - PREFIX
      modifies this`items, data
      ensures Valid() && items == [rest] + old(items)[1..]
    {
      hide LittleEndian, Holds;
      ghost var was := data[..];
      StoreAt(start, rest);
      Untouched(was, start, rest, 1, len);
      ghost var shrunk := [rest] + items[1..];
      forall k | 0 <= k < len
        ensures Holds(data[..], itemLen, Slot(start, k, cap), shrunk[k])
      {
        assert k > 0 ==> shrunk[k] == items[k];
      }
      items := shrunk;
    }

    lemma ItemFits(bytes: seq<Byte>, slot: nat, item: seq<Byte>)
      requires Holds(bytes, itemLen, slot, item)
      ensures PREFIX + |item| <= itemLen
    {
      hide LittleEndian;
    }

    /** StopPush */
    method StopPush()
      requires Valid()
      modifies this`mode
      ensures Valid() && View() == old(View()).(mode := ReadOnly)
    {
      mode := ReadOnly;
    }
  }

  // ---- over every run

  datatype Op = Push(d: seq<Byte>) | Pop(bufLen: nat, expired: bool) | Stop

  function Step(s: State, op: Op): State
    requires s.cap > 0
  {
    match op
    case Push(d) => PushStep(s, d).0
    case Pop(n, expired) => PopStep(s, n, expired).0
    case Stop => s.(mode := ReadOnly)
  }

  /** The bytes one operation takes into the queue: those of a push that is not refused. */
  function Accepted(s: State, op: Op): seq<Byte>
    requires s.cap > 0
  {
    if op.Push? && PushStep(s, op.d).0.items != s.items then op.d else []
  }

  function Read(s: State, op: Op): seq<Byte> {
    if op.Pop? then PopStep(s, op.bufLen, op.expired).2 else []
  }

  /** The state after the operations, the bytes accepted and the bytes read. */
  function Run(s: State, ops: seq<Op>): (r: (State, seq<Byte>, seq<Byte>))
    requires s.cap > 0
    ensures r.0.cap == s.cap
    decreases |ops|
  {
    if ops == [] then (s, [], [])
    else
      var (t, accepted, read) := Run(Step(s, ops[0]), ops[1..]);
      (t, Accepted(s, ops[0]) + accepted, Read(s, ops[0]) + read)
  }

  lemma FlattenPop(items: seq<seq<Byte>>, n: nat)
    requires items != [] && n <= |items[0]|
    ensures Flatten(items) == items[0] + Flatten(items[1..])
    ensures items[0][..n] + Flatten([items[0][n..]] + items[1..]) == Flatten(items)
  {
    var rest := [items[0][n..]] + items[1..];
    assert rest[1..] == items[1..];
    assert items[0][..n] + (items[0][n..] + Flatten(items[1..])) == items[0] + Flatten(items[1..]);
  }

  lemma PushIsFifo(s: State, d: seq<Byte>)
    requires 0 < s.cap && |s.items| <= s.cap && s.policy == FixLength
    ensures var t := PushStep(s, d).0;
            Flatten(t.items) == Flatten(s.items) + Accepted(s, Push(d)) && t.pushed - s.pushed == |Accepted(s, Push(d))|
  {
    hide Flatten;
    FlattenAppend(s.items, [d]);
    FlattenSingle(d);
    assert Flatten(s.items) + [] == Flatten(s.items);
  }

  lemma PopIsFifo(s: State, n: nat, expired: bool)
    ensures var (t, _, read) := PopStep(s, n, expired);
            read + Flatten(t.items) == Flatten(s.items) && t.popped - s.popped == |read| && |t.items| <= |s.items|
  {
    hide Flatten;
    assert [] + Flatten(s.items) == Flatten(s.items);
    if s.items != [] {
      var k := if n < |s.items[0]| then n else |s.items[0]|;
      FlattenPop(s.items, k);
    }
  }

  /** Reading in parts takes bytes from the front, pushing adds them at the back; the statistics follow. */
  lemma StepIsFifo(s: State, op: Op)
    requires 0 < s.cap && |s.items| <= s.cap && s.policy == FixLength && s.overwrites == 0
    ensures var t := Step(s, op);
            && t.cap == s.cap && |t.items| <= t.cap && t.policy == FixLength && t.overwrites == 0
            && Read(s, op) + Flatten(t.items) == Flatten(s.items) + Accepted(s, op)
            && t.pushed - s.pushed == |Accepted(s, op)| && t.popped - s.popped == |Read(s, op)|
  {
    hide Flatten;
    var f := Flatten(s.items);
    assert f + [] == f && [] + f == f;
    match op
    case Push(d) =>
      PushIsFifo(s, d);
      assert [] + (f + Accepted(s, op)) == f + Accepted(s, op);
    case Pop(n, expired) => PopIsFifo(s, n, expired);
    case Stop =>
  }

  /** Over every run: bytes read, then bytes stored, are the bytes there were, then the bytes accepted. */
  lemma {:induction false} RunIsFifo(s: State, ops: seq<Op>)
    requires 0 < s.cap && |s.items| <= s.cap && s.policy == FixLength && s.overwrites == 0
    ensures var (t, accepted, read) := Run(s, ops);
            && |t.items| <= t.cap
            && read + Flatten(t.items) == Flatten(s.items) + accepted
            && (t.pushed - t.popped) - (s.pushed - s.popped) == |Flatten(t.items)| - |Flatten(s.items)|
    decreases |ops|
  {
    hide Step, Read, Accepted, Flatten;
    if ops == [] {
      assert Flatten(s.items) + [] == [] + Flatten(s.items);
    } else {
      StepIsFifo(s, ops[0]);
      var t := Step(s, ops[0]);
      RunIsFifo(t, ops[1..]);
      var (u, accepted, read) := Run(t, ops[1..]);
      Chain(Read(s, ops[0]), Flatten(t.items), Flatten(s.items), Accepted(s, ops[0]), read, Flatten(u.items), accepted);
    }
  }

  lemma Chain<T>(r: seq<T>, b: seq<T>, a: seq<T>, p: seq<T>, r2: seq<T>, c: seq<T>, p2: seq<T>)
    requires r + b == a + p && r2 + c == b + p2
    ensures r + r2 + c == a + (p + p2) && |r| + |b| == |a| + |p| && |r2| + |c| == |b| + |p2|
  {
    assert r + r2 + c == r + (r2 + c) == r + b + p2;
    assert a + p + p2 == a + (p + p2);
  }

  /** A ring that still takes items: one that timed out only if it stays available. */
  predicate Takes(s: State) {
    s.mode == Open || (s.mode == TimedOut && s.availableAfterTimeout)
  }

  /**
   A full ring that may overwrite drops its oldest item and no other exactly when it takes items, and can only be pushed
   to from then on; otherwise it keeps what it has.
   */
  lemma OverwriteDropsOldest(s: State, d: seq<Byte>, n: nat, expired: bool)
    requires 0 < s.cap == |s.items| && s.policy == CanOverwrite
    ensures PushStep(s, d).1 == Q_OVERWRIT <==> Takes(s)
    ensures !Takes(s) ==> PushStep(s, d).0 == s.(dropped := s.dropped + |d|)
    ensures Takes(s) ==>
              var t := PushStep(s, d).0;
              && s.items[0] + Flatten(t.items) == Flatten(s.items) + d && PopStep(t, n, expired) == (t, Q_OVERWRIT, [])
              && (t.pushed - t.popped - |Flatten(t.items)| == s.pushed - s.popped - |Flatten(s.items)|
                  <==> s.items[0] == [])
  {
    if !Takes(s) {
      return;
    }
    FlattenPop(s.items, 0);
    FlattenAppend(s.items[1..], [d]);
    FlattenSingle(d);
    assert s.items[0] + (Flatten(s.items[1..]) + d) == Flatten(s.items) + d;
    assert |s.items[0]| + |Flatten(PushStep(s, d).0.items)| == |Flatten(s.items)| + |d|;
  }

  // ---- how many items it takes, and how it ends

  /** The state after a number of pushes, and their results. */
  function PushAll(s: State, ds: seq<seq<Byte>>): (r: (State, seq<int>))
    requires s.cap > 0
    ensures r.0.cap == s.cap
    decreases |ds|
  {
    if ds == [] then (s, [])
    else
      var (t, ret) := PushStep(s, ds[0]);
      var (u, rets) := PushAll(t, ds[1..]);
      (u, [ret] + rets)
  }

  /** Pops into buffers large enough: the bytes of each, and the results. */
  function PopAll(s: State, bufs: seq<nat>): (State, seq<seq<Byte>>, seq<int>)
    decreases |bufs|
  {
    if bufs == [] then (s, [], [])
    else
      var (t, ret, read) := PopStep(s, bufs[0], true);
      var (u, more, rets) := PopAll(t, bufs[1..]);
      (u, [read] + more, [ret] + rets)
  }

  /** A queue that refuses to overwrite takes as many items as it has slots, in order, and no more. */
  lemma {:induction false} FillsUp(s: State, ds: seq<seq<Byte>>)
    requires 0 < s.cap && |s.items| <= s.cap && s.policy == FixLength && s.mode == Open
    ensures var (t, rets) := PushAll(s, ds);
            var room := s.cap - |s.items|;
            var n := if |ds| < room then |ds| else room;
            && t.items == s.items + ds[..n] && |rets| == |ds|
            && (forall i :: 0 <= i < n ==> rets[i] == |ds[i]|) && (forall i :: n <= i < |ds| ==> rets[i] == Q_OVERFLOW)
    decreases |ds|
  {
    if ds == [] {
      assert s.items + [] == s.items;
    } else {
      var t := PushStep(s, ds[0]).0;
      FillsUp(t, ds[1..]);
      if |s.items| < s.cap {
        var n := if |ds[1..]| < t.cap - |t.items| then |ds[1..]| else t.cap - |t.items|;
        assert s.items + [ds[0]] + ds[1..][..n] == s.items + ds[..n + 1];
      }
    }
  }

  /** Pops into buffers that are large enough give the items one by one; one more waits in vain and times out. */
  lemma {:induction false} DrainsDown(s: State, bufs: seq<nat>)
    requires |bufs| == |s.items| && s.overwrites == 0 && (s.mode != TimedOut || s.availableAfterTimeout)
    requires forall i :: 0 <= i < |bufs| ==> |s.items[i]| <= bufs[i]
    ensures var (t, given, rets) := PopAll(s, bufs);
            && given == s.items && t.items == [] && t.mode == s.mode
            && t.availableAfterTimeout == s.availableAfterTimeout
            && |rets| == |given| && (forall i :: 0 <= i < |rets| ==> rets[i] == |given[i]|)
            && forall n: nat :: PopStep(t, n, true) ==
                                  if s.mode == ReadOnly then (t, 0, []) else (t.(mode := TimedOut), TIMEOUT, [])
    decreases |bufs|
  {
    if bufs != [] {
      var t := PopStep(s, bufs[0], true).0;
      assert forall i :: 0 <= i < |t.items| ==> t.items[i] == s.items[i + 1];
      DrainsDown(t, bufs[1..]);
      assert [s.items[0]] + s.items[1..] == s.items;
    }
  }

  /** Once stopped, or timed out for good, a queue takes nothing: it counts what it drops and says which it was. */
  lemma ClosedExactly(s: State, d: seq<Byte>)
    requires 0 < s.cap && (s.mode == ReadOnly || (s.mode == TimedOut && !s.availableAfterTimeout))
    ensures PushStep(s, d) == (s.(dropped := s.dropped + |d|), if s.mode == ReadOnly then NO_PUSH else 0)
    ensures s.mode == TimedOut && s.overwrites == 0 ==> forall n: nat, e: bool :: PopStep(s, n, e) == (s, TIMEOUT, [])
    ensures Step(s, Stop).mode == ReadOnly && Step(s, Stop).items == s.items
  {}
}
