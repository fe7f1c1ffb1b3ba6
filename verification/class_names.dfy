/**
 Interned class names under many threads: a lookup in one locked section, an allocation
 outside the lock, and a second lookup before the new name is linked in.
 */
module ClassNames {
  import opened Basics

  type Ptr = nat

  /** One record of the list. */
  datatype Interned = Interned(name: string, at: Ptr)

  datatype Caller =
    | Outside
    | Missing(name: string)
    | Ready(name: string, at: Ptr)

  /**
   `used` are the copies malloc has handed out and nobody freed; `results` is what calls have
   returned, None for NULL.
   */
  datatype System = System(list: seq<Interned>, callers: seq<Caller>, used: set<Ptr>,
                           results: seq<(string, Option<Ptr>)>)

  datatype Action = Look(name: string) | Allocate(at: Ptr) | AllocationFails | Link

  predicate Init(s: System) {
    s.list == [] && s.used == {} && s.results == [] && forall t :: 0 <= t < |s.callers| ==> s.callers[t] == Outside
  }

  /** The walk along the list from place `i` on. */
  function Lookup(list: seq<Interned>, name: string, i: nat): (r: Option<Ptr>)
    requires i <= |list|
    ensures r == None <==> forall j :: i <= j < |list| ==> list[j].name != name
    ensures r.Some? ==> Interned(name, r.value) in list[i..]
    decreases |list| - i
  {
    if i == |list| then None
    else if list[i].name == name then Some(list[i].at)
    else Lookup(list, name, i + 1)
  }

  function Returned(s: System, t: nat, name: string, r: Option<Ptr>): System
    requires t < |s.callers|
  {
    s.(callers := s.callers[t := Outside], results := s.results + [(name, r)])
  }

  datatype Outcome = Disabled | Next(s: System)

  /** One step of intern_class_name by caller `t`; a locked section is one step. */
  function Step(s: System, t: nat, a: Action): Outcome
    requires t < |s.callers|
  {
    match a
    case Look(name) =>
      if s.callers[t] != Outside then Disabled else
      var r := Lookup(s.list, name, 0);
      Next(if r.Some? then Returned(s, t, name, r) else s.(callers := s.callers[t := Missing(name)]))
    case Allocate(at) =>
      if !s.callers[t].Missing? || at in s.used then Disabled else
      Next(s.(callers := s.callers[t := Ready(s.callers[t].name, at)], used := s.used + {at}))
    case AllocationFails =>
      if !s.callers[t].Missing? then Disabled else
      Next(Returned(s, t, s.callers[t].name, None))
    case Link =>
      if !s.callers[t].Ready? then Disabled else
      var name, at := s.callers[t].name, s.callers[t].at;
      var r := Lookup(s.list, name, 0);
      Next(if r.Some? then Returned(s.(used := s.used - {at}), t, name, r)
           else Returned(s.(list := [Interned(name, at)] + s.list), t, name, Some(at)))
  }

  function Run(s: System, steps: seq<(nat, Action)>): System {
    if steps == [] then s else
    var before := Run(s, steps[..|steps| - 1]);
    var (t, a) := steps[|steps| - 1];
    if t >= |before.callers| then before else
    match Step(before, t, a)
    case Disabled => before
    case Next(after) => after
  }

  ghost predicate ListOk(list: seq<Interned>, used: set<Ptr>) {
    && (forall i, j :: 0 <= i < j < |list| ==> list[i].name != list[j].name && list[i].at != list[j].at)
    && (forall i :: 0 <= i < |list| ==> list[i].at in used)
  }

  ghost predicate CallersOk(list: seq<Interned>, callers: seq<Caller>, used: set<Ptr>) {
    && (forall t :: 0 <= t < |callers| && callers[t].Ready? ==> callers[t].at in used)
    && (forall t, i :: 0 <= t < |callers| && callers[t].Ready? && 0 <= i < |list| ==> list[i].at != callers[t].at)
    && (forall t, u :: 0 <= t < u < |callers| && callers[t].Ready? && callers[u].Ready? ==>
                         callers[t].at != callers[u].at)
  }

  ghost predicate ResultsOk(list: seq<Interned>, results: seq<(string, Option<Ptr>)>) {
    forall k :: 0 <= k < |results| && results[k].1.Some? ==> Interned(results[k].0, results[k].1.value) in list
  }

  /** A copy is owned by one record of the list or by one caller, and every result is in the list. */
  ghost predicate Inv(s: System) {
    && ListOk(s.list, s.used) && CallersOk(s.list, s.callers, s.used) && ResultsOk(s.list, s.results)
    && forall p :: p in s.used ==> Owned(s, p)
  }

  ghost predicate Owned(s: System, p: Ptr) {
    || (exists i :: 0 <= i < |s.list| && s.list[i].at == p)
    || (exists t :: 0 <= t < |s.callers| && s.callers[t].Ready? && s.callers[t].at == p)
  }

  lemma OwnedFrom(s: System, s': System, p: Ptr)
    requires Owned(s, p)
    requires forall e :: e in s.list ==> e in s'.list
    requires |s'.callers| == |s.callers|
    requires forall t :: 0 <= t < |s.callers| && s.callers[t].Ready? && s.callers[t].at == p ==>
               s'.callers[t] == s.callers[t] || Interned(s.callers[t].name, p) in s'.list
    ensures Owned(s', p)
  {
    if i :| 0 <= i < |s.list| && s.list[i].at == p {
      assert s.list[i] in s'.list;
      var j :| 0 <= j < |s'.list| && s'.list[j] == s.list[i];
    } else {
      var t :| 0 <= t < |s.callers| && s.callers[t].Ready? && s.callers[t].at == p;
      if s'.callers[t] != s.callers[t] {
        var j :| 0 <= j < |s'.list| && s'.list[j] == Interned(s.callers[t].name, p);
      }
    }
  }

  /** Every pointer still in use after a step has its owner. */
  lemma OwnedStep(s: System, t: nat, a: Action)
    requires Inv(s) && t < |s.callers| && Step(s, t, a).Next?
    ensures var s' := Step(s, t, a).s; forall p :: p in s'.used ==> Owned(s', p)
  {
    var s' := Step(s, t, a).s;
    forall p | p in s'.used
      ensures Owned(s', p)
    {
      if p in s.used {
        OwnedFrom(s, s', p);
      } else {
        assert s'.callers[t].Ready? && s'.callers[t].at == p;
      }
    }
  }

  lemma LookInv(s: System, t: nat, name: string)
    requires Inv(s) && t < |s.callers| && Step(s, t, Look(name)).Next?
    ensures Inv(Step(s, t, Look(name)).s)
  {
    OwnedStep(s, t, Look(name));
    hide Owned;
  }

  lemma AllocateInv(s: System, t: nat, at: Ptr)
    requires Inv(s) && t < |s.callers| && Step(s, t, Allocate(at)).Next?
    ensures Inv(Step(s, t, Allocate(at)).s)
  {
    OwnedStep(s, t, Allocate(at));
    hide Owned, Lookup;
  }

  lemma FailInv(s: System, t: nat)
    requires Inv(s) && t < |s.callers| && Step(s, t, AllocationFails).Next?
    ensures Inv(Step(s, t, AllocationFails).s)
  {
    OwnedStep(s, t, AllocationFails);
    hide Owned, Lookup;
  }

  /** Somebody else was first: the copy is freed again. */
  lemma LinkKnownInv(s: System, t: nat)
    requires Inv(s) && t < |s.callers| && s.callers[t].Ready? && Lookup(s.list, s.callers[t].name, 0).Some?
    ensures Inv(Step(s, t, Link).s)
  {
    OwnedStep(s, t, Link);
    hide Owned;
  }

  lemma LinkNewParts(list: seq<Interned>, callers: seq<Caller>, used: set<Ptr>, results: seq<(string, Option<Ptr>)>,
                     t: nat)
    requires t < |callers| && callers[t].Ready? && ResultsOk(list, results)
    requires forall j :: 0 <= j < |list| ==> list[j].name != callers[t].name
    requires ListOk(list, used) && CallersOk(list, callers, used)
    ensures var c := callers[t];
            var list' := [Interned(c.name, c.at)] + list;
            ListOk(list', used) && CallersOk(list', callers[t := Outside], used)
    ensures var c := callers[t];
            ResultsOk([Interned(c.name, c.at)] + list, results + [(c.name, Some(c.at))])
  {
    var list' := [Interned(callers[t].name, callers[t].at)] + list;
    assert forall i :: 0 < i < |list'| ==> list'[i] == list[i - 1];
    assert forall e :: e in list ==> e in list';
  }

  /** Nobody was: the copy becomes part of the list. */
  lemma LinkNewInv(s: System, t: nat)
    requires Inv(s) && t < |s.callers| && s.callers[t].Ready? && Lookup(s.list, s.callers[t].name, 0) == None
    ensures Inv(Step(s, t, Link).s)
  {
    OwnedStep(s, t, Link);
    LinkNewParts(s.list, s.callers, s.used, s.results, t);
    hide Owned, Lookup, ListOk, CallersOk, ResultsOk;
  }

  lemma LinkReady(s: System, t: nat)
    requires t < |s.callers| && Step(s, t, Link).Next?
    ensures s.callers[t].Ready?
  {
  }

  /** Every step of every caller keeps names and copies apart and accounted for. */
  lemma StepInv(s: System, t: nat, a: Action)
    requires Inv(s) && t < |s.callers| && Step(s, t, a).Next?
    ensures Inv(Step(s, t, a).s)
  {
    hide Inv, Step;
    match a
    case Look(name) => LookInv(s, t, name);
    case Allocate(at) => AllocateInv(s, t, at);
    case AllocationFails => FailInv(s, t);
    case Link =>
      LinkReady(s, t);
      if Lookup(s.list, s.callers[t].name, 0) == None {
        LinkNewInv(s, t);
      } else {
        LinkKnownInv(s, t);
      }
  }

  lemma {:induction false} RunInv(s: System, steps: seq<(nat, Action)>)
    requires Init(s)
    ensures Inv(Run(s, steps))
  {
    if steps != [] {
      RunInv(s, steps[..|steps| - 1]);
      var before := Run(s, steps[..|steps| - 1]);
      var (t, a) := steps[|steps| - 1];
      hide Inv;
      if t < |before.callers| && Step(before, t, a).Next? {
        StepInv(before, t, a);
      }
    }
  }

  /** Over any interleaving two calls that succeed get the same handle exactly if they asked for the same name. */
  lemma SameNameSameHandle(s: System, steps: seq<(nat, Action)>, k: nat, l: nat)
    requires Init(s)
    requires var r := Run(s, steps).results;
             k < |r| && l < |r| && r[k].1.Some? && r[l].1.Some?
    ensures var r := Run(s, steps).results;
            r[k].0 == r[l].0 <==> r[k].1 == r[l].1
  {
    RunInv(s, steps);
    hide Run;
  }

  // ----- what each call returns

  /**
   The names that calls under way asked for, and for each call that has returned its name and
   whether it succeeded.
   */
  datatype Watch = Watch(pending: map<nat, string>, ended: seq<(string, bool)>)

  ghost predicate Known(list: seq<Interned>, name: string) {
    exists i :: 0 <= i < |list| && list[i].name == name
  }

  /** What an observer notes of a step: a name that is known comes back at once, and only a failed allocation fails. */
  ghost function Noted(w: Watch, s: System, t: nat, a: Action): Watch {
    match a
    case Look(name) =>
      if Known(s.list, name) then w.(ended := w.ended + [(name, true)]) else w.(pending := w.pending[t := name])
    case Allocate(_) => w
    case AllocationFails =>
      if t in w.pending then Watch(w.pending - {t}, w.ended + [(w.pending[t], false)]) else w
    case Link =>
      if t in w.pending then Watch(w.pending - {t}, w.ended + [(w.pending[t], true)]) else w
  }

  ghost function Watched(s: System, steps: seq<(nat, Action)>): Watch {
    if steps == [] then Watch(map[], []) else
    var before, w := Run(s, steps[..|steps| - 1]), Watched(s, steps[..|steps| - 1]);
    var (t, a) := steps[|steps| - 1];
    if t < |before.callers| && Step(before, t, a).Next? then Noted(w, before, t, a) else w
  }

  ghost predicate Agrees(w: Watch, s: System) {
    && (forall t :: 0 <= t < |s.callers| ==>
          match s.callers[t]
          case Outside => t !in w.pending
          case Missing(name) => t in w.pending && w.pending[t] == name
          case Ready(name, _) => t in w.pending && w.pending[t] == name)
    && SameEnds(w.ended, s.results)
  }

  predicate SameEnds(ended: seq<(string, bool)>, results: seq<(string, Option<Ptr>)>) {
    && |results| == |ended|
    && forall k :: 0 <= k < |ended| ==> results[k].0 == ended[k].0 && results[k].1.Some? == ended[k].1
  }

  lemma KnownIsFound(list: seq<Interned>, name: string)
    ensures Known(list, name) <==> Lookup(list, name, 0).Some?
  {
  }

  lemma NotedAgrees(w: Watch, s: System, t: nat, a: Action)
    requires Agrees(w, s) && t < |s.callers| && Step(s, t, a).Next?
    ensures Agrees(Noted(w, s, t, a), Step(s, t, a).s)
  {
    if a.Look? {
      KnownIsFound(s.list, a.name);
    }
    hide Lookup, Known;
  }

  /**
   Over any interleaving the calls that have returned are those the observer has noted, in
   that order, with the names they asked for: a call returns a handle unless its own
   allocation failed, and one that asks for a known name returns at once.
   */
  lemma {:induction false} CallsAnswered(s: System, steps: seq<(nat, Action)>)
    requires Init(s)
    ensures Agrees(Watched(s, steps), Run(s, steps))
  {
    if steps != [] {
      CallsAnswered(s, steps[..|steps| - 1]);
      var before, w := Run(s, steps[..|steps| - 1]), Watched(s, steps[..|steps| - 1]);
      var (t, a) := steps[|steps| - 1];
      hide Agrees, Noted, Step;
      if t < |before.callers| && Step(before, t, a).Next? {
        NotedAgrees(w, before, t, a);
      }
    }
  }

  /** A caller always has a step to take: it starts, allocates or fails to, or links. */
  lemma NeverStuck(s: System, t: nat, name: string, at: Ptr)
    requires t < |s.callers|
    ensures Step(s, t, Look(name)).Next? <==> s.callers[t] == Outside
    ensures Step(s, t, Allocate(at)).Next? <==> s.callers[t].Missing? && at !in s.used
    ensures Step(s, t, AllocationFails).Next? <==> s.callers[t].Missing?
    ensures Step(s, t, Link).Next? <==> s.callers[t].Ready?
  {
    hide Lookup;
  }

  /** A handle stays what it is: its name is in the list at that address for ever after. */
  lemma {:induction false} HandleStays(s: System, steps: seq<(nat, Action)>, more: seq<(nat, Action)>, e: Interned)
    requires e in Run(s, steps).list
    ensures e in Run(s, steps + more).list
  {
    if more == [] {
      assert steps + more == steps;
    } else {
      var before := steps + more[..|more| - 1];
      HandleStays(s, steps, more[..|more| - 1], e);
      assert (steps + more)[..|steps + more| - 1] == before;
      hide Lookup;
    }
  }
}
