/**
 The calls behind the ring: which calls have begun and with what arguments, which of them
 the callback hears of, and how many it hears of in one frame.
 */
module GluCalls {
  import opened Basics
  import opened GluDownloads

  datatype Call = Call(handle: int, dest: seq<Byte>)

  /**
   The calls that have begun, how many completions waited in the ring when each of them
   looked, and how many the callback has received since the frame began.
   */
  datatype History = History(calls: seq<Call>, met: seq<nat>, frame: nat)

  /** Entries between the two cursors. */
  function InRing(r: Ring): nat
    requires Shaped(r)
  {
    (r.head + 32 - r.tail) % 32
  }

  /** What an observer adds when the next step is `a`. */
  function Seen(h: History, s: State, a: Action): History
    requires Shaped(s.ring)
  {
    match a
    case Produce(handle, dest) =>
      if 0 in dest then h
      else if s.p.Ready? then h.(calls := h.calls + [Call(handle, dest)])
      else if s.p.Check? then h.(met := h.met + [InRing(s.ring)])
      else h
    case Consume =>
      var t := ConsumerStep(s);
      if |t.delivered| > |s.delivered| then h.(frame := h.frame + 1)
      else if s.c.Waiting? && t.c.Waiting? then h.(frame := 0)
      else h
  }

  function Past(s: State, schedule: seq<Action>): History
    requires Shaped(s.ring)
  {
    if schedule == [] then History([], [], 0) else
    var before := schedule[..|schedule| - 1];
    var s1 := Run(s, before);
    if !Shaped(s1.ring) then Past(s, before) else Seen(Past(s, before), s1, schedule[|schedule| - 1])
  }

  /** The first `n` bytes. */
  function First(dest: seq<Byte>, n: nat): seq<Byte> {
    if |dest| <= n then dest else dest[..n]
  }

  /** What is to be delivered for the first `n` calls: those that met fewer than 31, with 255 bytes of the path. */
  function Kept(h: History, n: nat): seq<(int, seq<Byte>)>
    requires n <= |h.calls| && n <= |h.met|
  {
    if n == 0 then []
    else Kept(h, n - 1) + if h.met[n - 1] < 31 then [(h.calls[n - 1].handle, First(h.calls[n - 1].dest, 255))] else []
  }

  lemma {:induction false} KeptFrame(h: History, h': History, n: nat)
    requires n <= |h.calls| && n <= |h.met| && h.calls <= h'.calls && h.met <= h'.met
    ensures Kept(h', n) == Kept(h, n)
  {
    if n > 0 {
      KeptFrame(h, h', n - 1);
    }
  }

  /** The calls that have returned. */
  function Returned(h: History, s: State): nat {
    if s.p.Ready? || h.calls == [] then |h.calls| else |h.calls| - 1
  }

  /** The call the producer is working on. */
  function Current(p: Producer): Call
    requires !p.Ready?
  {
    Call(p.handle, p.dest)
  }

  ghost predicate InStep(h: History, s: State) {
    && |h.met| == (if s.p.Check? then |h.calls| - 1 else |h.calls|)
    && (!s.p.Ready? ==> h.calls != [] && h.calls[|h.calls| - 1] == Current(s.p))
    && (Writing(s.p) ==> h.met[|h.met| - 1] < 31)
    && s.accepted == Kept(h, Returned(h, s))
  }

  lemma InRingExact(s: State)
    requires Inv(s)
    ensures InRing(s.ring) == |s.accepted| - Taken(s)
  {
    Difference(|s.accepted|, Taken(s));
    hide SlotOk, ProducerOk, ConsumerOk;
  }

  lemma Difference(a: nat, t: nat)
    requires t <= a < t + 32
    ensures (a % 32 + 32 - t % 32) % 32 == a - t
  {
  }

  lemma SameCut(dest: seq<Byte>)
    ensures Cut(dest) == First(dest, 255)
  {
  }

  lemma ProduceInStep(h: History, s: State, handle: int, dest: seq<Byte>)
    requires Inv(s) && InStep(h, s) && 0 !in dest
    ensures InStep(Seen(h, s, Produce(handle, dest)), ProducerStep(s, handle, dest))
  {
    hide SlotOk, ProducerOk, ConsumerOk, Kept, InRing, Cut, First;
    var h' := Seen(h, s, Produce(handle, dest));
    KeptFrame(h, h', Returned(h, s));
    if s.p.Check? {
      InRingExact(s);
      RefusedWhenFull(s);
      CheckIgnores(s, handle, dest);
      KeptLast(h');
    } else if s.p.Publish? {
      SameCut(s.p.dest);
      KeptLast(h);
    }
  }

  lemma CheckIgnores(s: State, handle: int, dest: seq<Byte>)
    requires Shaped(s.ring) && s.p.Check?
    ensures ProducerStep(s, handle, dest) == ProducerStep(s, 0, [])
  {
  }

  lemma KeptLast(h: History)
    requires 0 < |h.calls| == |h.met|
    ensures var n := |h.calls| - 1;
            Kept(h, n + 1) == Kept(h, n) +
              (if h.met[n] < 31 then [(h.calls[n].handle, First(h.calls[n].dest, 255))] else [])
  {
  }

  lemma ConsumeInStep(h: History, s: State)
    requires Inv(s) && InStep(h, s)
    ensures InStep(Seen(h, s, Consume), ConsumerStep(s))
  {
    hide Kept;
    KeptFrame(h, Seen(h, s, Consume), Returned(h, s));
  }

  lemma {:induction false} RunInStep(s: State, schedule: seq<Action>)
    requires Init(s)
    ensures InStep(Past(s, schedule), Run(s, schedule))
  {
    RunInv(s, schedule);
    if schedule != [] {
      var n := |schedule| - 1;
      RunInv(s, schedule[..n]);
      RunInStep(s, schedule[..n]);
      var s1 := Run(s, schedule[..n]);
      RunShaped(s1);
      hide Inv, InStep, ProducerStep, ConsumerStep;
      match schedule[n]
      case Produce(handle, dest) =>
        if 0 !in dest {
          ProduceInStep(Past(s, schedule[..n]), s1, handle, dest);
        }
      case Consume =>
        ConsumeInStep(Past(s, schedule[..n]), s1);
    }
  }

  lemma RunShaped(s: State)
    requires Inv(s)
    ensures Shaped(s.ring)
  {
  }

  /**
   Under any interleaving the callback has received a prefix of what the returned calls
   ask for: of the calls that met fewer than 31 waiting completions, each once and in the
   order of the calls, the handle with the first 255 bytes of the destination. At most 31
   wait in the ring with one more in the hands of the drain.
   */
  lemma FifoDelivery(s: State, schedule: seq<Action>)
    requires Init(s)
    ensures var t, h := Run(s, schedule), Past(s, schedule);
            && Returned(h, t) <= |h.calls| <= Returned(h, t) + 1 && Returned(h, t) <= |h.met|
            && t.delivered <= Kept(h, Returned(h, t))
            && |Kept(h, Returned(h, t))| < Taken(t) + 32 <= |t.delivered| + 33
  {
    RunInv(s, schedule);
    RunInStep(s, schedule);
  }

  /** When the drain finds the ring empty, the callback has heard of every returned call it is to hear of. */
  lemma EmptyMeansDelivered(s: State, schedule: seq<Action>)
    requires Init(s)
    requires var t := Run(s, schedule); t.c.Waiting? && t.ring.head == t.ring.tail
    ensures var t, h := Run(s, schedule), Past(s, schedule);
            Returned(h, t) <= |h.met| && t.delivered == Kept(h, Returned(h, t))
  {
    AllTaken(s, schedule);
    RunInStep(s, schedule);
  }

  /** From every reachable state, enough steps of the drain alone make up for every returned call. */
  lemma AllDelivered(s: State, schedule: seq<Action>) returns (n: nat)
    requires Init(s)
    ensures var t, h := Run(s, schedule), Past(s, schedule);
            Returned(h, t) <= |h.met| && Run(s, schedule + Drains(n)).delivered == Kept(h, Returned(h, t))
  {
    RunInStep(s, schedule);
    n := DrainsDeliver(s, schedule);
  }

  // ----- a call returns

  /** Steps the producer still needs, at most. */
  function Work(p: Producer): int {
    match p
    case Ready => 0
    case Publish(_, _) => 1
    case EndPath(_, _, _) => 2
    case CopyPath(_, _, k) => 3 + 255 - k
    case ClearPath(_, _) => 259
    case StoreHandle(_, _) => 260
    case Check(_, _) => 261
  }

  function Produces(n: nat): (a: seq<Action>)
    ensures |a| == n
  {
    seq(n, _ => Produce(0, []))
  }

  lemma WorkLess(s: State)
    requires Inv(s) && !s.p.Ready?
    ensures 0 <= Work(ProducerStep(s, 0, []).p) < Work(s.p) <= 261
  {
    hide SlotOk, ConsumerOk;
  }

  /** A call that has begun returns after at most 261 steps of its own, whatever the drain has done. */
  lemma {:induction false} CallReturns(s: State, schedule: seq<Action>) returns (n: nat)
    requires Init(s)
    ensures Run(s, schedule + Produces(n)).p.Ready? && n <= 261
    ensures n <= if Run(s, schedule).p.Ready? then 0 else Work(Run(s, schedule).p)
    decreases if Run(s, schedule).p.Ready? then 0 else Work(Run(s, schedule).p)
  {
    hide Inv, Work, ProducerStep;
    RunInv(s, schedule);
    var t := Run(s, schedule);
    if t.p.Ready? {
      assert schedule + Produces(0) == schedule;
      return 0;
    }
    WorkLess(t);
    ProduceNext(s, schedule);
    n := CallReturns(s, schedule + [Produce(0, [])]);
    assert schedule + [Produce(0, [])] + Produces(n) == schedule + Produces(n + 1);
    n := n + 1;
  }

  lemma ProduceNext(s: State, schedule: seq<Action>)
    requires Init(s)
    ensures Shaped(Run(s, schedule).ring)
    ensures Run(s, schedule + [Produce(0, [])]) == ProducerStep(Run(s, schedule), 0, [])
  {
    RunInv(s, schedule);
    hide ProducerStep;
    assert (schedule + [Produce(0, [])])[..|schedule|] == schedule;
  }

  // ----- frames

  /** Deliveries of this frame, and one more in the hands of the drain. */
  ghost predicate FrameOk(h: History, s: State) {
    match s.c
    case Waiting(fired) => h.frame == fired <= 8
    case LoadHandle(fired) => h.frame == fired < 8
    case Advance(fired, _, _) => h.frame == fired < 8
    case Measure(fired, _, _, _) => h.frame + 1 == fired <= 8
    case Fetch(fired, _, _, _, _) => h.frame + 1 == fired <= 8
  }

  lemma FrameStep(h: History, s: State, a: Action)
    requires Shaped(s.ring) && FrameOk(h, s)
    ensures FrameOk(Seen(h, s, Consume), ConsumerStep(s))
    ensures a.Produce? ==> FrameOk(Seen(h, s, a), ProducerStep(s, a.handle, a.dest))
  {
  }

  /**
   The callback hears of at most eight completions in a frame, and the drain leaves the
   frame only with an empty ring or after eight.
   */
  lemma {:induction false} FrameBound(s: State, schedule: seq<Action>)
    requires Init(s)
    ensures FrameOk(Past(s, schedule), Run(s, schedule)) && Past(s, schedule).frame <= 8
    ensures var t := Run(s, schedule);
            t.c.Waiting? && Shaped(t.ring) && ConsumerStep(t).c.Waiting? ==>
              t.ring.tail == t.ring.head || Past(s, schedule).frame == 8
  {
    if schedule != [] {
      var n := |schedule| - 1;
      RunInv(s, schedule[..n]);
      FrameBound(s, schedule[..n]);
      var s1 := Run(s, schedule[..n]);
      RunShaped(s1);
      FrameStep(Past(s, schedule[..n]), s1, schedule[n]);
      hide Inv, ProducerStep;
    }
  }
}
