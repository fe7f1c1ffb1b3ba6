/**
 The queue of input events: a ring of 64 slots that drops the oldest event when it is
 full, and the drain that moves as many events as fit into the buffer of the game.
 */
module InputQueue {
  import opened Basics
  import opened InputPacket

  const CAP := 64

  // ----- the ring on values

  function Slots(s: seq<Event>, head: nat, count: nat): seq<Event>
    requires |s| == CAP && head < CAP && count <= CAP
  {
    seq(count, i requires 0 <= i < count => s[(head + i) % CAP])
  }

  lemma SlotsPop(s: seq<Event>, head: nat, count: nat)
    requires |s| == CAP && head < CAP && 0 < count <= CAP
    ensures Slots(s, (head + 1) % CAP, count - 1) == Slots(s, head, count)[1..]
  {
  }

  lemma SlotsPush(s: seq<Event>, head: nat, count: nat, e: Event)
    requires |s| == CAP && head < CAP && count < CAP
    ensures Slots(s[(head + count) % CAP := e], head, count + 1) == Slots(s, head, count) + [e]
  {
    var s', all := s[(head + count) % CAP := e], Slots(s, head, count) + [e];
    forall i | 0 <= i <= count
      ensures Slots(s', head, count + 1)[i] == all[i]
    {
      if i < count {
        assert (head + i) % CAP != (head + count) % CAP;
      }
    }
  }

  /** A sequence of at most 64 events that makes room by dropping the first one. */
  function Pushed(events: seq<Event>, e: Event): (r: seq<Event>)
  {
    if |events| == CAP then events[1..] + [e] else events + [e]
  }

  // ----- the packet

  /** How many events from the front fit into `room` bytes. */
  function Fitting(events: seq<Event>, room: int): (k: nat)
    ensures k <= |events|
  {
    if events == [] || Need(events[0]) > room then 0
    else 1 + Fitting(events[1..], room - Need(events[0]))
  }

  lemma EncodeAllNext(events: seq<Event>, k: nat)
    requires k < |events|
    ensures EncodeAll(events[..k + 1]) == EncodeAll(events[..k]) + Encode(events[k])
  {
    hide EncodeAll, Encode, Need;
    EncodeAllAppend(events[..k], events[k]);
    assert events[..k + 1] == events[..k] + [events[k]];
  }

  /** Everything that is taken fits, and the next event would not have. */
  lemma {:induction false} FittingExact(events: seq<Event>, room: nat)
    ensures var k := Fitting(events, room);
            && |EncodeAll(events[..k])| <= room
            && (k < |events| ==> |EncodeAll(events[..k + 1])| > room)
  {
    hide Encode, Need;
    if events != [] && Need(events[0]) <= room {
      var k := Fitting(events[1..], room - Need(events[0]));
      FittingExact(events[1..], room - Need(events[0]));
      assert events[..k + 1][1..] == events[1..][..k];
      if k + 1 < |events| {
        assert events[..k + 2][1..] == events[1..][..k + 1];
      }
    } else if events != [] {
      EncodeAllNext(events, 0);
    }
  }

  /** The buffer while the drain is under way: a cleared header, the records so far, the old content. */
  ghost predicate Filling(s: seq<Byte>, was: seq<Byte>, events: seq<Event>) {
    && HEADER + |EncodeAll(events)| <= |was|
    && s == Zeros(HEADER) + EncodeAll(events) + was[HEADER + |EncodeAll(events)|..]
  }

  lemma FillingNext(s: seq<Byte>, s': seq<Byte>, was: seq<Byte>, events: seq<Event>, k: nat)
    requires k < |events| && Filling(s, was, events[..k])
    requires var at := HEADER + |EncodeAll(events[..k])|;
             && at + Need(events[k]) <= |s|
             && s' == s[..at] + Encode(events[k]) + s[at + Need(events[k])..]
    ensures Filling(s', was, events[..k + 1])
  {
    hide Encode, EncodeAll;
    EncodeAllNext(events, k);
    var done, more := EncodeAll(events[..k]), Encode(events[k]);
    var at := HEADER + |done|;
    assert s[..at] == Zeros(HEADER) + done;
    assert s[at + |more|..] == was[at + |more|..];
  }

  /** The drain has taken `k` events and its cursor is behind them. */
  ghost predicate Taken(events: seq<Event>, k: nat, cursor: nat, capacity: nat) {
    && k <= |events| && HEADER <= cursor <= capacity && cursor == HEADER + |EncodeAll(events[..k])|
    && Fitting(events, capacity - HEADER) == k + Fitting(events[k..], capacity - cursor)
  }

  lemma TakenSteps(events: seq<Event>, k: nat, cursor: nat, capacity: nat)
    requires HEADER <= capacity
    ensures Taken(events, 0, HEADER, capacity)
    ensures Taken(events, k, cursor, capacity) && k < |events| && cursor + Need(events[k]) <= capacity ==>
              Taken(events, k + 1, cursor + Need(events[k]), capacity)
    ensures Taken(events, k, cursor, capacity) && (k == |events| || cursor + Need(events[k]) > capacity) ==>
              k == Fitting(events, capacity - HEADER)
  {
    hide Encode, Need;
    assert events[0..] == events;
    if k < |events| {
      EncodeAllNext(events, k);
      assert events[k..][1..] == events[k + 1..];
    }
  }

  /** Event `k` would not fit behind the cursor. */
  ghost predicate NoRoom(events: seq<Event>, k: nat, cursor: nat, capacity: nat) {
    k < |events| && cursor + Need(events[k]) > capacity
  }

  /** The first `k` events are in the buffer, the others still in the ring. */
  ghost predicate Draining(s: seq<Byte>, ring: seq<Event>, head: nat, count: nat, capacity: nat,
                           was: seq<Byte>, events: seq<Event>, k: nat, cursor: nat) {
    && |ring| == CAP && head < CAP && count <= CAP && capacity <= |s| && |events| <= CAP
    && Taken(events, k, cursor, capacity) && count == |events| - k && Slots(ring, head, count) == events[k..]
    && Filling(s, was, events[..k])
  }

  lemma DrainingFront(s: seq<Byte>, ring: seq<Event>, head: nat, count: nat, capacity: nat,
                      was: seq<Byte>, events: seq<Event>, k: nat, cursor: nat)
    requires Draining(s, ring, head, count, capacity, was, events, k, cursor) && 0 < count
    ensures head < CAP && count <= CAP && capacity <= |s| && k < |events| && ring[head] == events[k]
  {
    hide Filling, Taken;
    FrontIs(ring, head, count);
  }

  /** One more record written and its event taken from the ring. */
  lemma DrainingNext(s: seq<Byte>, s': seq<Byte>, ring: seq<Event>, slots: seq<Event>, capacity: nat,
                     was: seq<Byte>, events: seq<Event>, k: nat, cursor: nat,
                     head: nat, count: nat, taken: Event, head': nat, count': nat)
    requires Draining(s, ring, head, count, capacity, was, events, k, cursor) && slots == Slots(ring, head, count)
    requires k < |events| && cursor + Need(events[k]) <= capacity && head' < CAP && count == count' + 1
    requires s' == s[..cursor] + Encode(events[k]) + s[cursor + Need(events[k])..]
    requires [taken] + Slots(ring, head', count') == slots
    ensures Draining(s', ring, head', count', capacity, was, events, k + 1, cursor + Need(events[k]))
  {
    assert cursor == HEADER + |EncodeAll(events[..k])|;
    hide Slots, EncodeAll, Encode, Need, Filling;
    TakenSteps(events, k, cursor, capacity);
    FillingNext(s, s', was, events, k);
    assert slots[1..] == Slots(ring, head', count') && events[k..][1..] == events[k + 1..];
  }

  /** A finished packet in front of the old content. */
  ghost predicate Filled(s: seq<Byte>, was: seq<Byte>, events: seq<Event>) {
    && |events| <= CAP && |Packet(events)| <= |was|
    && s == Packet(events) + was[|Packet(events)|..]
  }

  lemma FillingDone(s: seq<Byte>, s': seq<Byte>, was: seq<Byte>, events: seq<Event>)
    requires |events| <= CAP && Filling(s, was, events) && Open(s', s, 0, PutWord(|events|), 12)
    ensures Filled(s', was, events)
  {
    hide PutWord, EncodeAll;
    assert s[HEADER..] == EncodeAll(events) + was[HEADER + |EncodeAll(events)|..];
  }

  lemma FillingStarts(s: seq<Byte>, was: seq<Byte>, events: seq<Event>)
    requires HEADER <= |was| && Open(s, was, 0, [], HEADER)
    ensures EncodeAll(events[..0]) == [] && Filling(s, was, events[..0])
  {
  }

  lemma FillingOpen(s: seq<Byte>, was: seq<Byte>, events: seq<Event>)
    requires Filling(s, was, events)
    ensures Open(s, s, 0, [], HEADER)
  {
    hide EncodeAll;
    assert s == s[..HEADER] + s[HEADER..];
    assert s[..HEADER] == Zeros(HEADER);
  }

  lemma FrontIs(s: seq<Event>, head: nat, count: nat)
    requires |s| == CAP && head < CAP && 0 < count <= CAP
    ensures |Slots(s, head, count)| == count && Slots(s, head, count)[0] == s[head]
  {
  }

  /** What a drain does with a buffer: all events that fit are in it, the others left. */
  ghost predicate Emptied(was: seq<Byte>, events: seq<Event>, k: nat, capacity: nat, s: seq<Byte>, left: seq<Event>) {
    && k <= |events| && k == Fitting(events, capacity - HEADER) && left == events[k..]
    && Filled(s, was, events[..k])
  }

  /** The reader of a finished buffer sees exactly the delivered events; what lies behind the packet is untouched. */
  lemma FilledParses(s: seq<Byte>, was: seq<Byte>, events: seq<Event>)
    requires Filled(s, was, events)
    ensures ParsePacket(s) == Some(Views(events))
    ensures |s| == |was| && s[|Packet(events)|..] == was[|Packet(events)|..]
  {
    hide ParsePacket, Packet, Views;
    PacketParses(events, was[|Packet(events)|..]);
  }

  // ----- whole runs

  datatype Op = Push(event: Event) | Take(capacity: nat)

  /**
   All events so far by number: those from `low` on are queued, `got` were delivered, in
   this order, and `lost` had to make room.
   */
  datatype Trace = Trace(pushed: seq<Event>, low: nat, got: seq<nat>, lost: set<nat>)

  function Queued(t: Trace): seq<Event> {
    if t.low <= |t.pushed| then t.pushed[t.low..] else []
  }

  function Numbers(from: nat, n: nat): seq<nat> {
    seq(n, i requires 0 <= i < n => from + i)
  }

  function After(t: Trace, op: Op): Trace {
    match op
    case Push(e) =>
      var pushed := t.pushed + [e];
      if |Queued(t)| == CAP then Trace(pushed, t.low + 1, t.got, t.lost + {t.low}) else t.(pushed := pushed)
    case Take(capacity) =>
      var k := Fitting(Queued(t), capacity - HEADER);
      t.(low := t.low + k, got := t.got + Numbers(t.low, k))
  }

  function Run(ops: seq<Op>): Trace {
    if ops == [] then Trace([], 0, [], {}) else After(Run(ops[..|ops| - 1]), ops[|ops| - 1])
  }

  ghost predicate Fair(t: Trace) {
    && t.low <= |t.pushed| <= t.low + 64
    && (forall i, j :: 0 <= i < j < |t.got| ==> t.got[i] < t.got[j])
    && (forall n :: n in t.got ==> n < t.low && n !in t.lost)
    && (forall n :: n in t.lost ==> n + 64 < |t.pushed|)
    && (forall n: nat :: n < t.low ==> n in t.got || n in t.lost)
  }

  /** One call of the class is one step of the trace. */
  lemma AfterQueued(t: Trace, op: Op)
    requires Fair(t)
    ensures op.Push? ==> Queued(After(t, op)) == Pushed(Queued(t), op.event)
    ensures op.Take? ==> Queued(After(t, op)) == Queued(t)[Fitting(Queued(t), op.capacity - HEADER)..]
  {
    hide Fitting;
  }

  lemma FairPush(t: Trace, e: Event)
    requires Fair(t)
    ensures Fair(After(t, Push(e)))
  {
  }

  lemma FairTake(t: Trace, capacity: nat)
    requires Fair(t)
    ensures Fair(After(t, Take(capacity)))
  {
    var k := Fitting(Queued(t), capacity - HEADER);
    var t' := After(t, Take(capacity));
    assert forall j :: |t.got| <= j < |t'.got| ==> t'.got[j] == t.low + (j - |t.got|);
    assert forall i, j :: 0 <= i < j < |t'.got| ==> t'.got[i] < t'.got[j] by {
      forall i, j | 0 <= i < j < |t'.got|
        ensures t'.got[i] < t'.got[j]
      {
        if i < |t.got| {
          assert t'.got[i] == t.got[i] && t.got[i] in t.got;
        }
      }
    }
    forall n: nat | n < t'.low
      ensures n in t'.got || n in t'.lost
    {
      if t.low <= n {
        assert t'.got[|t.got| + (n - t.low)] == n;
      }
    }
  }

  /**
   Over any run, events are delivered in the order of their arrival and none twice, every
   event is queued, delivered or lost, and event n is lost only once event n + 64 has come.
   */
  lemma {:induction false} RunFair(ops: seq<Op>)
    ensures Fair(Run(ops))
  {
    hide Fair, After;
    if ops == [] {
      FairStart();
    } else {
      var t, op := Run(ops[..|ops| - 1]), ops[|ops| - 1];
      RunFair(ops[..|ops| - 1]);
      match op {
        case Push(e) => FairPush(t, e);
        case Take(capacity) => FairTake(t, capacity);
      }
    }
  }

  lemma FairStart()
    ensures Fair(Trace([], 0, [], {}))
  {
  }

  class Queue {
    const queue: array<Event>
    var head: nat
    var count: nat

    ghost predicate Valid()
      reads this
    {
      queue.Length == CAP && head < CAP && count <= CAP
    }

    /** The waiting events, oldest first. */
    ghost function Contents(): seq<Event>
      requires Valid()
      reads this, queue
    {
      Slots(queue[..], head, count)
    }

    constructor ()
      ensures Valid() && fresh(queue) && Contents() == []
    {
      queue := new Event[CAP](_ => Characters([]));
      head, count := 0, 0;
    }

    /** Puts an event behind the last one. */
    method Append(event: Event)
      requires Valid() && count < CAP
      modifies this`count, queue
      ensures Valid() && Contents() == old(Contents()) + [event] && count == old(count) + 1
    {
      SlotsPush(queue[..], head, count, event);
      hide Slots;
      ghost var before := queue[..];
      var tail := (head + count) % CAP;
      queue[tail] := event;
      assert queue[..] == before[tail := event];
      count := count + 1;
    }

    /** input_enqueue. */
    method Enqueue(event: Event)
      requires Valid()
      modifies this`head, this`count, queue
      ensures Valid() && Contents() == Pushed(old(Contents()), event)
    {
      if count == CAP {
        var dropped := Dequeue();
        assert Contents() == old(Contents())[1..];
      }
      hide Slots;
      Append(event);
    }

    /** Takes the oldest event. */
    method Dequeue() returns (event: Event)
      requires Valid() && 0 < count
      modifies this`head, this`count
      ensures Valid() && [event] + Contents() == old(Contents())
    {
      event := queue[head];
      SlotsPop(queue[..], head, count);
      assert Slots(queue[..], head, count)[0] == event;
      hide Slots;
      head := (head + 1) % CAP;
      count := count - 1;
    }

    /**
     input_drain_to_buffer: the longest run of events from the front that fits goes into the
     buffer, the rest stays queued in order, and nothing is written behind the packet.
     */
    method Drain(buffer: array?<Byte>, capacity: nat) returns (delivered: nat)
      requires Valid()
      requires buffer != null ==> capacity <= buffer.Length
      modifies this`head, this`count, buffer
      ensures Valid()
      ensures buffer == null || capacity < HEADER ==> delivered == 0 && Contents() == old(Contents())
      ensures buffer != null && capacity < HEADER ==> buffer[..] == old(buffer[..])
      ensures buffer != null && HEADER <= capacity ==>
                Emptied(old(buffer[..]), old(Contents()), delivered, capacity, buffer[..], Contents())
    {
      if buffer == null || capacity < HEADER {
        return 0;
      }
      hide Slots, Emptied;
      delivered := FillBuffer(buffer, capacity);
    }

    method FillBuffer(buffer: array<Byte>, capacity: nat) returns (delivered: nat)
      requires Valid() && HEADER <= capacity <= buffer.Length
      modifies this`head, this`count, buffer
      ensures Valid()
      ensures Emptied(old(buffer[..]), old(Slots(queue[..], head, count)), delivered, capacity,
                      buffer[..], Slots(queue[..], head, count))
    {
      ghost var was, events := buffer[..], Slots(queue[..], head, count);
      assert queue.Length == CAP && HEADER >= 0;
      hide *;
      var cursor: nat := HEADER;
      delivered := 0;
      StartHeader(buffer, capacity);
      var full := false;
      while !full && count > 0
        invariant queue.Length == CAP
        invariant Draining(buffer[..], queue[..], head, count, capacity, was, events, delivered, cursor)
        invariant full ==> NoRoom(events, delivered, cursor, capacity)
        decreases !full, count
      {
        full, cursor := DrainOne(buffer, capacity, was, events, delivered, cursor);
        if !full {
          delivered := delivered + 1;
        }
      }
      FinishHeader(buffer, capacity, was, events, delivered, cursor);
    }

    /** One round of the loop: stops at the first event that does not fit. */
    method DrainOne(buffer: array<Byte>, capacity: nat, ghost was: seq<Byte>, ghost events: seq<Event>, ghost k: nat,
                    cursor: nat)
      returns (full: bool, next: nat)
      requires queue.Length == CAP && Draining(buffer[..], queue[..], head, count, capacity, was, events, k, cursor)
      requires 0 < count
      modifies this`head, this`count, buffer
      ensures full ==> next == cursor && NoRoom(events, k, next, capacity) && count == old(count)
      ensures !full ==> count == old(count) - 1
      ensures Draining(buffer[..], queue[..], head, count, capacity, was, events, if full then k else k + 1, next)
    {
      hide *;
      var need := FrontNeed(buffer, capacity, was, events, k, cursor);
      if cursor + need > capacity {
        return true, cursor;
      }
      DeliverFront(buffer, cursor, need, capacity, was, events, k);
      full, next := false, cursor + need;
    }

    method StartHeader(buffer: array<Byte>, capacity: nat)
      requires Valid() && HEADER <= capacity <= buffer.Length
      modifies buffer
      ensures Draining(buffer[..], queue[..], head, count, capacity,
                       old(buffer[..]), Slots(queue[..], head, count), 0, HEADER)
    {
      ghost var was, events := buffer[..], Slots(queue[..], head, count);
      assert |events| == count && events[0..] == events;
      TakenSteps(events, 0, HEADER, capacity);
      hide Slots, EncodeAll, Open, Taken, Filling, Zeros;
      Clear(buffer, 0, HEADER);
      FillingStarts(buffer[..], was, events);
    }

    /** The size of the record for the oldest event. */
    method FrontNeed(buffer: array<Byte>, ghost capacity: nat, ghost was: seq<Byte>, ghost events: seq<Event>,
                     ghost k: nat, ghost cursor: nat)
      returns (need: nat)
      requires queue.Length == CAP && Draining(buffer[..], queue[..], head, count, capacity, was, events, k, cursor)
      requires 0 < count
      ensures k < |events| && need == Need(events[k])
      ensures cursor + need > capacity ==> NoRoom(events, k, cursor, capacity)
    {
      hide Need, Taken, Filling;
      need := Need(queue[head]);
      FrontIs(queue[..], head, count);
      hide Slots;
    }

    /** Moves the oldest event to the end of the packet. */
    method DeliverFront(buffer: array<Byte>, cursor: nat, ghost need: nat, ghost capacity: nat, ghost was: seq<Byte>,
                        ghost events: seq<Event>, ghost k: nat)
      requires queue.Length == CAP && Draining(buffer[..], queue[..], head, count, capacity, was, events, k, cursor)
      requires 0 < count && k < |events|
      requires need == Need(events[k]) && cursor + need <= capacity
      modifies this`head, this`count, buffer
      ensures count == old(count) - 1
      ensures Draining(buffer[..], queue[..], head, count, capacity, was, events, k + 1, cursor + need)
    {
      ghost var s, ring, slots := buffer[..], queue[..], Slots(queue[..], head, count);
      hide Draining, Slots, EncodeAll, Encode, Need;
      DrainingFront(s, ring, head, count, capacity, was, events, k, cursor);
      WriteEvent(buffer, cursor, queue[head]);
      ghost var s' := s[..cursor] + Encode(events[k]) + s[cursor + Need(events[k])..];
      assert buffer[..] == s';
      var taken := Dequeue();
      DrainingNext(s, s', ring, slots, capacity, was, events, k, cursor, old(head), old(count), taken, head, count);
    }

    /** The number of records goes into the cleared header last. */
    method FinishHeader(buffer: array<Byte>, ghost capacity: nat, ghost was: seq<Byte>, ghost events: seq<Event>,
                        delivered: nat, ghost cursor: nat)
      requires queue.Length == CAP
      requires Draining(buffer[..], queue[..], head, count, capacity, was, events, delivered, cursor)
      requires HEADER <= capacity
      requires count == 0 || NoRoom(events, delivered, cursor, capacity)
      modifies buffer
      ensures Valid() && Emptied(was, events, delivered, capacity, buffer[..], Slots(queue[..], head, count))
    {
      ghost var s := buffer[..];
      TakenSteps(events, delivered, cursor, capacity);
      FillingOpen(s, was, events[..delivered]);
      assert delivered == |events| || cursor + Need(events[delivered]) > capacity;
      hide EncodeAll, Open, Filling, Filled, Fitting, Need, Slots, Taken, PutWord, Draining;
      PutU32(buffer, s, 0, [], HEADER, 0, delivered);
      assert [] + PutWord(delivered) == PutWord(delivered);
      FillingDone(s, buffer[..], was, events[..delivered]);
    }
  }
}
