/**
 What the table holds after any schedule of locked sections, by an observer who knows only
 which sections ran: the map from objects to counts that the calls themselves make.
 */
module TrackerHistory {
  import opened ObjectGraph
  import opened TrackerTable
  import opened TrackerThreads
  import opened TrackerRefines

  /** Registrations between their two sections, and the counts of every tracked object. */
  datatype Watch = Watch(pending: map<nat, (Obj, Kind)>, refs: Refs)

  /** One more reference to a tracked object. */
  function Raised(refs: Refs, obj: Obj, asGlobal: bool): Refs {
    if Reserved(obj) || obj !in refs then refs
    else
      var c := refs[obj];
      refs[obj := if asGlobal then Counts(c.kind, c.local, c.global + 1) else Counts(c.kind, c.local + 1, c.global)]
  }

  function Less(n: nat): nat {
    if n == 0 then 0 else n - 1
  }

  /** One reference less; the object goes with its last one. */
  function Lowered(refs: Refs, obj: Obj, preferGlobal: bool): Refs {
    if Reserved(obj) || obj !in refs then refs
    else
      var c := refs[obj];
      var local := if preferGlobal then c.local else Less(c.local);
      var global := if preferGlobal then Less(c.global) else c.global;
      if local == 0 && global == 0 then refs - {obj} else refs[obj := Counts(c.kind, local, global)]
  }

  /** What the observer notes of the next step. */
  function Noted(w: Watch, t: nat, a: Action): Watch {
    match a
    case Begin(obj, kind) => if obj in w.refs then w else w.(pending := w.pending[t := (obj, kind)])
    case Malloc(_) => w
    case MallocFails => w.(pending := w.pending - {t})
    case Commit =>
      if t !in w.pending then w
      else
        var (obj, kind) := w.pending[t];
        Watch(w.pending - {t}, if obj in w.refs then w.refs else w.refs[obj := Counts(kind, 1, 0)])
    case FreeRecord => w
    case Add(obj, asGlobal) => w.(refs := Raised(w.refs, obj, asGlobal))
    case Drop(obj, preferGlobal) => w.(refs := Lowered(w.refs, obj, preferGlobal))
  }

  function Watched(s: System, schedule: seq<(nat, Action)>): Watch {
    if schedule == [] then Watch(map[], map[])
    else
      var before, w := Run(s, schedule[..|schedule| - 1]), Watched(s, schedule[..|schedule| - 1]);
      var (t, a) := schedule[|schedule| - 1];
      if t < |before.threads| && Shaped(before.table) && Step(before, t, a).Next? then Noted(w, t, a) else w
  }

  /** The registration a thread is in the middle of. */
  predicate InMidst(reg: Registering, pending: map<nat, (Obj, Kind)>, t: nat) {
    match reg
    case Idle => t !in pending
    case NeedRecord(obj, kind) => t in pending && pending[t] == (obj, kind) && kind != Unknown
    case HasRecord(obj, kind, _) => t in pending && pending[t] == (obj, kind) && kind != Unknown
  }

  ghost predicate InStep(w: Watch, s: System) {
    && Represents(s.table, w.refs)
    && forall t :: 0 <= t < |s.threads| ==> InMidst(s.threads[t].reg, w.pending, t)
  }

  lemma RaisedIs(refs: Refs, obj: Obj, asGlobal: bool)
    ensures AddedRef(refs, obj, asGlobal) == Raised(refs, obj, asGlobal)
  {
  }

  /** Every thread is where it was in its registration. */
  lemma MidstKept(pending: map<nat, (Obj, Kind)>, threads: seq<Thread>, threads': seq<Thread>)
    requires forall t :: 0 <= t < |threads| ==> InMidst(threads[t].reg, pending, t)
    requires |threads'| == |threads| && forall t :: 0 <= t < |threads| ==> threads'[t].reg == threads[t].reg
    ensures forall t :: 0 <= t < |threads'| ==> InMidst(threads'[t].reg, pending, t)
  {
    hide InMidst;
  }

  /** Steps on the table alone. */
  lemma AddNoted(w: Watch, s: System, t: nat, obj: Obj, asGlobal: bool)
    requires InStep(w, s) && t < |s.threads|
    ensures InStep(Noted(w, t, Add(obj, asGlobal)), Step(s, t, Add(obj, asGlobal)).s)
  {
    hide Represents, AddRef, Raised, AddedRef, Find, Chain, InMidst;
    AddRefRefines(s.table, w.refs, obj, asGlobal);
    RaisedIs(w.refs, obj, asGlobal);
  }

  lemma DropNoted(w: Watch, s: System, t: nat, obj: Obj, preferGlobal: bool)
    requires InStep(w, s) && t < |s.threads|
    ensures InStep(Noted(w, t, Drop(obj, preferGlobal)), Step(s, t, Drop(obj, preferGlobal)).s)
  {
    RepresentsShaped(s.table, w.refs);
    hide Represents, Release, Lowered, ReleaseMeans, Find, Chain, InMidst;
    var (table', r) := Release(s.table, obj, preferGlobal);
    ReleaseRefines(s.table, w.refs, obj, preferGlobal);
    LoweredIs(w.refs, obj, preferGlobal, table', r);
    MidstKept(w.pending, s.threads, Step(s, t, Drop(obj, preferGlobal)).s.threads);
  }

  lemma LoweredIs(refs: Refs, obj: Obj, preferGlobal: bool, t: Table, r: Released)
    requires ReleaseMeans(refs, obj, preferGlobal, r != NotFound, r.Unlinked?,
                          if r.Unlinked? then r.e.kind else Unknown, t)
    ensures Represents(t, Lowered(refs, obj, preferGlobal))
  {
    hide Represents;
  }

  /** The sections of a registration. */
  lemma RegisterStep(w: Watch, s: System, t: nat, a: Action)
    requires InStep(w, s) && t < |s.threads| && Step(s, t, a).Next? && (a.Begin? || a.Commit?)
    ensures InStep(Noted(w, t, a), Step(s, t, a).s)
  {
    hide Represents, RegisterBegin, RegisterCommit, Find, Chain;
    match a
    case Begin(obj, kind) =>
      RegisterMeans(s.table, w.refs, obj, kind, Pool(0));
    case Commit =>
      var HasRecord(obj, kind, id) := s.threads[t].reg;
      assert InMidst(s.threads[t].reg, w.pending, t);
      RegisterMeans(s.table, w.refs, obj, kind, id);
  }

  lemma OtherStep(w: Watch, s: System, t: nat, a: Action)
    requires InStep(w, s) && t < |s.threads| && Step(s, t, a).Next? && (a.Malloc? || a.MallocFails? || a.FreeRecord?)
    ensures InStep(Noted(w, t, a), Step(s, t, a).s)
  {
    hide Represents, RegisterBegin, RegisterCommit, Find, Chain, AddRef, Release;
    assert InMidst(s.threads[t].reg, w.pending, t);
  }

  /** The table of the initial state is the empty map. */
  lemma InitInStep(s: System)
    requires Init(s)
    ensures InStep(Watch(map[], map[]), s)
  {
    InitInv(s);
  }

  /** A placeholder is never tracked. */
  ghost predicate NoPlaceholder(w: Watch) {
    && (forall o :: o in w.refs ==> !Reserved(o))
    && (forall t :: t in w.pending ==> !Reserved(w.pending[t].0))
  }

  lemma NotedNoPlaceholder(w: Watch, s: System, t: nat, a: Action)
    requires NoPlaceholder(w) && t < |s.threads| && Shaped(s.table) && Step(s, t, a).Next?
    ensures NoPlaceholder(Noted(w, t, a))
  {
    hide RegisterBegin, RegisterCommit, Find, Chain, AddRef, Release;
  }

  /**
   Over any interleaving the table is exactly the map of the counts the calls make: an entry
   appears with the second section of the first registration to get there, with one local
   reference and the kind it was registered under, counts with every reference added and
   dropped, and goes with the last one.
   */
  lemma {:induction false} RunRepresents(s: System, schedule: seq<(nat, Action)>)
    requires Init(s)
    ensures InStep(Watched(s, schedule), Run(s, schedule)) && NoPlaceholder(Watched(s, schedule))
  {
    if schedule == [] {
      InitInStep(s);
    } else {
      var n := |schedule| - 1;
      RunRepresents(s, schedule[..n]);
      var before, w := Run(s, schedule[..n]), Watched(s, schedule[..n]);
      var (t, a) := schedule[n];
      hide InStep, Noted, Step, Represents;
      if t < |before.threads| && Shaped(before.table) && Step(before, t, a).Next? {
        NotedNoPlaceholder(w, before, t, a);
        if a.Add? {
          AddNoted(w, before, t, a.obj, a.asGlobal);
        } else if a.Drop? {
          DropNoted(w, before, t, a.obj, a.preferGlobal);
        } else if a.Begin? || a.Commit? {
          RegisterStep(w, before, t, a);
        } else {
          OtherStep(w, before, t, a);
        }
      }
    }
  }

  lemma GoneAsRegistered(refs: Refs, obj: Obj, preferGlobal: bool, found: bool, gone: bool, kind: Kind, t: Table)
    requires ReleaseMeans(refs, obj, preferGlobal, found, gone, kind, t) && (Reserved(obj) ==> obj !in refs)
    ensures gone <==> (obj in refs
                       && if preferGlobal then refs[obj].local == 0 && refs[obj].global <= 1
                          else refs[obj].local <= 1 && refs[obj].global == 0)
    ensures gone ==> kind == refs[obj].kind
  {
    hide Represents;
  }

  /** What a release in a reachable state destroys, and that it is destroyed under the kind it was registered with. */
  lemma DestroyedAsRegistered(s: System, schedule: seq<(nat, Action)>, obj: Obj, preferGlobal: bool)
    requires Init(s)
    ensures Shaped(Run(s, schedule).table)
    ensures var refs, r := Watched(s, schedule).refs, Release(Run(s, schedule).table, obj, preferGlobal).1;
            && (r.Unlinked? <==> (obj in refs
                                  && if preferGlobal then refs[obj].local == 0 && refs[obj].global <= 1
                                     else refs[obj].local <= 1 && refs[obj].global == 0))
            && (r.Unlinked? ==> r.e.obj == obj && r.e.kind == refs[obj].kind)
  {
    RunRepresents(s, schedule);
    RepresentsShaped(Run(s, schedule).table, Watched(s, schedule).refs);
    hide *;
    var t, refs := Run(s, schedule).table, Watched(s, schedule).refs;
    ReleaseRefines(t, refs, obj, preferGlobal);
    var (t', r) := Release(t, obj, preferGlobal);
    GoneAsRegistered(refs, obj, preferGlobal, r != NotFound, r.Unlinked?, if r.Unlinked? then r.e.kind else Unknown,
                     t');
  }

  lemma RepresentsShaped(t: Table, refs: Refs)
    requires Represents(t, refs)
    ensures Shaped(t)
  {
  }

  /**
   A registration needs malloc exactly when its object is unknown, the free list is empty and all
   128 records are used.
   */
  lemma NeedsMalloc(s: System, schedule: seq<(nat, Action)>, obj: Obj, kind: Kind)
    requires Init(s) && kind != Unknown
    ensures var t := Run(s, schedule).table;
            && Shaped(t)
            && var taken := RegisterBegin(t, obj, kind).1;
               && (taken == Exhausted <==> obj !in Watched(s, schedule).refs && t.free == [] && t.poolUsed >= 128)
               && (taken == Existing <==> obj in Watched(s, schedule).refs)
               && (taken.Record? ==> taken.id == if t.free != [] then t.free[0] else Pool(t.poolUsed))
  {
    RunRepresents(s, schedule);
    RegisterMeans(Run(s, schedule).table, Watched(s, schedule).refs, obj, kind, Pool(0));
    hide Run, Watched, Represents, Find;
  }
}
