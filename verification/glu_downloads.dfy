/**
 The ring of deferred downloads: one thread queues completions, the render loop
 drains them. Every access to shared memory is one step, and the drain reads a
 path slot after it has already given the slot up by advancing the tail.
 */
module GluDownloads {
  import opened Basics

  const QMAX := 32
  const PATH_BYTES := 256

  datatype Ring = Ring(q: seq<int>, path: seq<seq<Byte>>, head: nat, tail: nat)

  datatype Producer =
    | Ready
    | Check(handle: int, dest: seq<Byte>)
    | StoreHandle(handle: int, dest: seq<Byte>)
    | ClearPath(handle: int, dest: seq<Byte>)
    | CopyPath(handle: int, dest: seq<Byte>, k: nat)
    | EndPath(handle: int, dest: seq<Byte>, k: nat)
    | Publish(handle: int, dest: seq<Byte>)

  datatype Consumer =
    | Waiting(fired: nat)
    | LoadHandle(fired: nat)
    | Advance(fired: nat, h: int, slot: nat)
    | Measure(fired: nat, h: int, slot: nat, n: nat)
    | Fetch(fired: nat, h: int, slot: nat, n: nat, got: seq<Byte>)

  /** `accepted` and `delivered` record what was published and what the callback received. */
  datatype State = State(ring: Ring, p: Producer, c: Consumer,
                         accepted: seq<(int, seq<Byte>)>, delivered: seq<(int, seq<Byte>)>)

  predicate Init(s: State) {
    && |s.ring.q| == QMAX && |s.ring.path| == QMAX
    && (forall i :: 0 <= i < QMAX ==> |s.ring.path[i]| == PATH_BYTES)
    && s.ring.head == 0 && s.ring.tail == 0
    && s.p == Ready && s.c == Waiting(0) && s.accepted == [] && s.delivered == []
  }

  predicate Shaped(r: Ring) {
    && |r.q| == QMAX && |r.path| == QMAX && r.head < QMAX && r.tail < QMAX
    && (forall i :: 0 <= i < QMAX ==> |r.path[i]| == PATH_BYTES)
  }

  /** A C string cut to the slot: at most 255 bytes and the terminator. */
  function Cut(dest: seq<Byte>): seq<Byte> {
    if |dest| < PATH_BYTES then dest else dest[..PATH_BYTES - 1]
  }

  function Poke(r: Ring, slot: nat, k: nat, b: Byte): Ring
    requires Shaped(r) && slot < QMAX && k < PATH_BYTES
  {
    r.(path := Replaced(r.path, slot, Replaced(r.path[slot], k, b)))
  }

  /** The next step of the producer; `handle` and `dest` (empty for no destination) are used when a new call starts. */
  function ProducerStep(s: State, handle: int, dest: seq<Byte>): State
    requires Shaped(s.ring)
  {
    var r := s.ring;
    match s.p
    case Ready => s.(p := Check(handle, dest))
    case Check(h, d) =>
      if (r.head + 1) % QMAX == r.tail then s.(p := Ready) else s.(p := StoreHandle(h, d))
    case StoreHandle(h, d) => s.(ring := r.(q := r.q[r.head := h]), p := ClearPath(h, d))
    case ClearPath(h, d) => s.(ring := Poke(r, r.head, 0, 0), p := CopyPath(h, d, 0))
    case CopyPath(h, d, k) =>
      if k < |d| && k < PATH_BYTES - 1 then s.(ring := Poke(r, r.head, k, d[k]), p := CopyPath(h, d, k + 1))
      else s.(p := EndPath(h, d, k))
    case EndPath(h, d, k) =>
      if k < PATH_BYTES then s.(ring := Poke(r, r.head, k, 0), p := Publish(h, d)) else s
    case Publish(h, d) =>
      s.(ring := r.(head := (r.head + 1) % QMAX), p := Ready, accepted := s.accepted + [(h, Cut(d))])
  }

  /** The next step of the drain: at most eight completions a frame. The string is measured first and copied after. */
  function ConsumerStep(s: State): State
    requires Shaped(s.ring)
  {
    var r := s.ring;
    match s.c
    case Waiting(fired) =>
      if fired < 8 && r.tail != r.head then s.(c := LoadHandle(fired)) else s.(c := Waiting(0))
    case LoadHandle(fired) => s.(c := Advance(fired, r.q[r.tail], r.tail))
    case Advance(fired, h, slot) =>
      s.(ring := r.(tail := (r.tail + 1) % QMAX), c := Measure(fired + 1, h, slot, 0))
    case Measure(fired, h, slot, n) =>
      if slot < QMAX && n < PATH_BYTES && r.path[slot][n] != 0 then s.(c := Measure(fired, h, slot, n + 1))
      else s.(c := Fetch(fired, h, slot, n, []))
    case Fetch(fired, h, slot, n, got) =>
      if slot < QMAX && |got| < n && |got| < PATH_BYTES then
        s.(c := Fetch(fired, h, slot, n, got + [r.path[slot][|got|]]))
      else s.(c := Waiting(fired), delivered := s.delivered + [(h, got)])
  }

  /** The slot holds the C string `path`. */
  predicate HoldsPath(buf: seq<Byte>, path: seq<Byte>) {
    |buf| == PATH_BYTES && |path| < PATH_BYTES && path == buf[..|path|] && buf[|path|] == 0 && 0 !in path
  }

  /** How many completions the drain has taken off the ring. */
  function Taken(s: State): nat {
    |s.delivered| + if s.c.Measure? || s.c.Fetch? then 1 else 0
  }

  predicate Writing(p: Producer) {
    p.StoreHandle? || p.ClearPath? || p.CopyPath? || p.EndPath? || p.Publish?
  }

  /** Slot `j % QMAX` holds the j-th accepted completion. */
  predicate SlotOk(r: Ring, accepted: seq<(int, seq<Byte>)>, j: nat)
    requires Shaped(r) && j < |accepted|
  {
    r.q[j % QMAX] == accepted[j].0 && HoldsPath(r.path[j % QMAX], accepted[j].1)
  }

  predicate ProducerOk(s: State)
    requires Shaped(s.ring)
  {
    var r := s.ring;
    match s.p
    case Ready => true
    case Check(h, d) => 0 !in d
    case StoreHandle(h, d) => 0 !in d
    case ClearPath(h, d) => 0 !in d && r.q[r.head] == h
    case CopyPath(h, d, k) => 0 !in d && r.q[r.head] == h && k <= |Cut(d)| && r.path[r.head][..k] == d[..k]
    case EndPath(h, d, k) => 0 !in d && r.q[r.head] == h && k == |Cut(d)| && r.path[r.head][..k] == Cut(d)
    case Publish(h, d) => 0 !in d && r.q[r.head] == h && HoldsPath(r.path[r.head], Cut(d))
  }

  predicate ConsumerOk(s: State)
    requires Shaped(s.ring)
  {
    var a, t := s.accepted, Taken(s);
    match s.c
    case Waiting(_) => true
    case LoadHandle(_) => t < |a|
    case Advance(_, h, slot) => t < |a| && slot == s.ring.tail && h == a[t].0
    case Measure(_, h, slot, n) =>
      0 < t <= |a| && slot == (t - 1) % QMAX && h == a[t - 1].0 && n <= |a[t - 1].1|
    case Fetch(_, h, slot, n, got) =>
      0 < t <= |a| && slot == (t - 1) % QMAX && h == a[t - 1].0 && n == |a[t - 1].1| && got <= a[t - 1].1
  }

  ghost predicate Inv(s: State) {
    var a := |s.accepted|;
    && Shaped(s.ring)
    && s.delivered <= s.accepted
    && Taken(s) <= a && a < Taken(s) + QMAX
    && (Writing(s.p) ==> a + 1 < Taken(s) + QMAX)
    && s.ring.head == a % QMAX && s.ring.tail == Taken(s) % QMAX
    && (forall j :: |s.delivered| <= j < a ==> SlotOk(s.ring, s.accepted, j))
    && ProducerOk(s) && ConsumerOk(s)
  }

  /** Positions less than a round apart use different slots. */
  lemma SlotsDiffer(j: nat, a: nat)
    requires j < a < j + QMAX
    ensures j % QMAX != a % QMAX
  {
  }

  /** Writing the slot behind the newest entry disturbs no entry that is still to be read. */
  lemma SlotsKept(r: Ring, r': Ring, accepted: seq<(int, seq<Byte>)>, lo: nat)
    requires Shaped(r) && Shaped(r') && lo <= |accepted| < lo + QMAX
    requires forall i :: 0 <= i < QMAX && i != |accepted| % QMAX ==> r'.q[i] == r.q[i] && r'.path[i] == r.path[i]
    requires forall j :: lo <= j < |accepted| ==> SlotOk(r, accepted, j)
    ensures forall j :: lo <= j < |accepted| ==> SlotOk(r', accepted, j)
  {
    forall j | lo <= j < |accepted|
      ensures SlotOk(r', accepted, j)
    {
      assert SlotOk(r, accepted, j);
      SlotsDiffer(j, |accepted|);
    }
  }

  /** The drain's own position does not move while the producer writes its slot. */
  lemma WriteInv(s: State, s': State)
    requires Inv(s) && Writing(s.p) && Shaped(s'.ring) && ProducerOk(s')
    requires s' == s.(ring := s'.ring, p := s'.p)
    requires s'.ring.head == s.ring.head && s'.ring.tail == s.ring.tail
    requires forall i :: 0 <= i < QMAX && i != s.ring.head ==>
               s'.ring.q[i] == s.ring.q[i] && s'.ring.path[i] == s.ring.path[i]
    ensures Inv(s')
  {
    SlotsKept(s.ring, s'.ring, s.accepted, |s.delivered|);
  }

  lemma NextSlot(a: nat)
    ensures (a % QMAX + 1) % QMAX == (a + 1) % QMAX
  {
  }

  /** Moving a cursor changes no slot; what was written behind the newest entry becomes the newest. */
  lemma SlotsMoved(r: Ring, r': Ring, accepted: seq<(int, seq<Byte>)>, accepted': seq<(int, seq<Byte>)>, lo: nat)
    requires Shaped(r) && Shaped(r') && r'.q == r.q && r'.path == r.path && accepted <= accepted'
    requires forall j :: lo <= j < |accepted| ==> SlotOk(r, accepted, j)
    requires forall j :: |accepted| <= j < |accepted'| ==> SlotOk(r, accepted', j)
    ensures forall j :: lo <= j < |accepted'| ==> SlotOk(r', accepted', j)
  {
    forall j | lo <= j < |accepted'|
      ensures SlotOk(r', accepted', j)
    {
      if j < |accepted| {
        assert SlotOk(r, accepted, j);
      } else {
        assert SlotOk(r, accepted', j);
      }
    }
  }

  lemma PublishInv(s: State)
    requires Inv(s) && s.p.Publish?
    ensures Inv(ProducerStep(s, 0, []))
  {
    var s' := ProducerStep(s, 0, []);
    assert SlotOk(s.ring, s'.accepted, |s.accepted|);
    hide HoldsPath, Cut, SlotOk;
    NextSlot(|s.accepted|);
    SlotsMoved(s.ring, s'.ring, s.accepted, s'.accepted, |s.delivered|);
  }

  lemma ProducerInv(s: State, handle: int, dest: seq<Byte>)
    requires Inv(s) && 0 !in dest
    ensures Inv(ProducerStep(s, handle, dest))
  {
    hide SlotOk, HoldsPath;
    var s' := ProducerStep(s, handle, dest);
    match s.p
    case Ready =>
    case Check(h, d) =>
      CheckInv(s);
    case StoreHandle(h, d) =>
      WriteInv(s, s');
    case ClearPath(h, d) =>
      WriteInv(s, s');
    case CopyPath(h, d, k) =>
      CopyOk(s);
      WriteInv(s, s');
    case EndPath(h, d, k) =>
      EndOk(s);
      WriteInv(s, s');
    case Publish(h, d) =>
      PublishInv(s);
  }

  lemma CopyOk(s: State)
    requires Inv(s) && s.p.CopyPath?
    ensures Shaped(ProducerStep(s, 0, []).ring) && ProducerOk(ProducerStep(s, 0, []))
  {
  }

  lemma EndOk(s: State)
    requires Inv(s) && s.p.EndPath?
    ensures Shaped(ProducerStep(s, 0, []).ring) && ProducerOk(ProducerStep(s, 0, []))
  {
  }

  /** The test against the tail leaves one slot empty. */
  lemma CheckInv(s: State)
    requires Inv(s) && s.p.Check?
    ensures Inv(ProducerStep(s, 0, []))
  {
    FullExact(|s.accepted|, Taken(s));
    hide SlotOk, ConsumerOk;
  }

  lemma AdvanceInv(s: State)
    requires Inv(s) && s.c.Advance?
    ensures Inv(ConsumerStep(s))
  {
    hide HoldsPath, SlotOk;
    NextSlot(Taken(s));
    SlotsMoved(s.ring, ConsumerStep(s).ring, s.accepted, s.accepted, |s.delivered|);
  }

  /** Reading the given-up slot: it still holds the string published for this handle. */
  lemma ReadInv(s: State)
    requires Inv(s) && (s.c.Measure? || s.c.Fetch?)
    ensures Inv(ConsumerStep(s))
  {
    var t := Taken(s);
    assert SlotOk(s.ring, s.accepted, t - 1);
    var path := s.accepted[t - 1].1;
    hide SlotOk;
    if s.c.Measure? {
      assert s.ring.path[s.c.slot][..|path|] == path;
      assert s.c.n < |path| ==> s.ring.path[s.c.slot][s.c.n] == path[s.c.n];
    } else if |s.c.got| < |path| {
      assert s.ring.path[s.c.slot][|s.c.got|] == path[|s.c.got|];
    } else {
      assert s.c.got == path;
    }
  }

  lemma ConsumerInv(s: State)
    requires Inv(s)
    ensures Inv(ConsumerStep(s))
  {
    match s.c
    case Waiting(fired) =>
    case LoadHandle(fired) =>
      assert SlotOk(s.ring, s.accepted, Taken(s));
    case Advance(fired, h, slot) =>
      AdvanceInv(s);
    case Measure(fired, h, slot, n) =>
      ReadInv(s);
    case Fetch(fired, h, slot, n, got) =>
      ReadInv(s);
  }

  /** One step of either side; a producer step carries the arguments of a call that may start. */
  datatype Action = Produce(handle: int, dest: seq<Byte>) | Consume

  function Run(s: State, schedule: seq<Action>): State
    requires Shaped(s.ring)
  {
    if schedule == [] then s else
    var s1 := Run(s, schedule[..|schedule| - 1]);
    if !Shaped(s1.ring) then s1 else
    match schedule[|schedule| - 1]
    case Produce(handle, dest) => if 0 in dest then s1 else ProducerStep(s1, handle, dest)
    case Consume => ConsumerStep(s1)
  }

  lemma {:induction false} RunInv(s: State, schedule: seq<Action>)
    requires Init(s)
    ensures Inv(Run(s, schedule))
  {
    hide Inv, ProducerStep, ConsumerStep;
    if schedule == [] {
      InitInv(s);
    } else {
      var n := |schedule| - 1;
      RunInv(s, schedule[..n]);
      var s1 := Run(s, schedule[..n]);
      match schedule[n]
      case Produce(handle, dest) =>
        if 0 !in dest {
          ProducerInv(s1, handle, dest);
        }
      case Consume =>
        ConsumerInv(s1);
    }
  }

  lemma InitInv(s: State)
    requires Init(s)
    ensures Inv(s)
  {
  }

  /** A call is turned away exactly when 31 completions wait in the ring. */
  lemma RefusedWhenFull(s: State)
    requires Inv(s) && s.p.Check?
    ensures ProducerStep(s, 0, []).p == Ready <==> |s.accepted| == Taken(s) + QMAX - 1
  {
    FullExact(|s.accepted|, Taken(s));
    hide SlotOk, ConsumerOk, ProducerOk;
  }

  /** The slot behind the head is the tail's exactly when 31 entries lie between them. */
  lemma FullExact(a: nat, t: nat)
    requires t <= a < t + QMAX
    ensures (a % QMAX + 1) % QMAX == t % QMAX <==> a == t + QMAX - 1
  {
    NextSlot(a);
    if a + 1 == t + QMAX {
      Round(t);
    } else {
      SlotsDiffer(t, a + 1);
    }
  }

  lemma Round(t: nat)
    ensures (t + QMAX) % QMAX == t % QMAX
  {
  }

  /** When the drain finds the ring empty, everything accepted has been delivered. */
  lemma AllTaken(s: State, schedule: seq<Action>)
    requires Init(s)
    requires var t := Run(s, schedule); t.c.Waiting? && t.ring.head == t.ring.tail
    ensures var t := Run(s, schedule); t.delivered == t.accepted
  {
    RunInv(s, schedule);
    var t := Run(s, schedule);
    if |t.delivered| < |t.accepted| {
      SlotsDiffer(|t.delivered|, |t.accepted|);
    }
  }

  // ----- progress

  function Drains(n: nat): (a: seq<Action>)
    ensures |a| == n
  {
    seq(n, _ => Consume)
  }

  function Rank(c: Consumer): nat {
    match c
    case Waiting(fired) => if fired < 8 then 4 else 5
    case LoadHandle(_) => 3
    case Advance(_, _, _) => 2
    case Measure(_, _, _, _) => 1
    case Fetch(_, _, _, _, _) => 0
  }

  /** Bytes still to be looked at, never negative. */
  function BytesLeft(c: Consumer): int {
    match c
    case Measure(_, _, _, n) => PATH_BYTES - n
    case Fetch(_, _, _, _, got) => PATH_BYTES - |got|
    case _ => 0
  }

  /** One step of the drain, as long as anything is outstanding, comes closer to a delivery. */
  lemma StepCloser(s: State)
    requires Inv(s) && s.delivered != s.accepted
    ensures var t := ConsumerStep(s);
            && t.accepted == s.accepted
            && (|t.delivered| > |s.delivered|
                || (t.delivered == s.delivered && Rank(t.c) < Rank(s.c))
                || (t.delivered == s.delivered && Rank(t.c) == Rank(s.c) && 0 <= BytesLeft(t.c) < BytesLeft(s.c)))
  {
    hide SlotOk, ProducerOk;
    match s.c
    case Waiting(fired) =>
      SlotsDiffer(Taken(s), |s.accepted|);
    case LoadHandle(_) =>
    case Advance(_, _, _) =>
    case Measure(_, _, _, n) =>
    case Fetch(_, _, _, _, got) =>
      FetchBound(s);
  }

  lemma FetchBound(s: State)
    requires Inv(s) && s.c.Fetch?
    ensures s.c.slot < QMAX && s.c.n < PATH_BYTES
  {
    assert SlotOk(s.ring, s.accepted, Taken(s) - 1);
  }

  /** How far the drain is from its next delivery, and from the last one. */
  ghost predicate Closer(t: State, s: State) {
    && t.accepted == s.accepted && |t.delivered| <= |t.accepted|
    && (|t.delivered| > |s.delivered|
        || (t.delivered == s.delivered && Rank(t.c) < Rank(s.c))
        || (t.delivered == s.delivered && Rank(t.c) == Rank(s.c) && 0 <= BytesLeft(t.c) < BytesLeft(s.c)))
  }

  lemma NextCloser(s: State, schedule: seq<Action>)
    requires Init(s) && Run(s, schedule).delivered != Run(s, schedule).accepted
    ensures Closer(Run(s, schedule + [Consume]), Run(s, schedule))
  {
    RunInv(s, schedule);
    RunNext(s, schedule);
    hide Run, Rank, BytesLeft, ConsumerStep;
    var t := Run(s, schedule);
    StepCloser(t);
    ConsumerInv(t);
    OutstandingSigns(ConsumerStep(t));
  }

  /** From every reachable state, enough steps of the drain alone deliver everything that has been accepted. */
  lemma {:induction false} DrainsDeliver(s: State, schedule: seq<Action>) returns (n: nat)
    requires Init(s)
    ensures Run(s, schedule + Drains(n)).delivered == Run(s, schedule).accepted
    decreases |Run(s, schedule).accepted| - |Run(s, schedule).delivered|,
              Rank(Run(s, schedule).c), BytesLeft(Run(s, schedule).c)
  {
    hide Run, Rank, BytesLeft;
    if Run(s, schedule).delivered == Run(s, schedule).accepted {
      assert schedule + Drains(0) == schedule;
      return 0;
    }
    NextCloser(s, schedule);
    n := DrainsDeliver(s, schedule + [Consume]);
    assert schedule + [Consume] + Drains(n) == schedule + Drains(n + 1);
    n := n + 1;
  }

  lemma RunNext(s: State, schedule: seq<Action>)
    requires Init(s)
    ensures Shaped(Run(s, schedule).ring)
    ensures Run(s, schedule + [Consume]) == ConsumerStep(Run(s, schedule))
  {
    RunInv(s, schedule);
    hide ConsumerStep;
    assert (schedule + [Consume])[..|schedule|] == schedule;
  }

  lemma OutstandingSigns(s: State)
    requires Inv(s)
    ensures |s.delivered| <= |s.accepted|
  {
  }
}
