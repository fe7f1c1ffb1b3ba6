/**
 The object graph that the fake JNI layer owns: tracked objects with their
 reference counts, and object arrays whose slots own references of their own.
 This module holds the values and the facts about them; module JniObjects holds
 the operations.
 */
module ObjectGraph {

  /** An object handle is its address. */
  type Obj = nat

  datatype Kind = Unknown | Class | Array | String | DirectBuffer

  /** What the tracking table records about one object. */
  datatype Counts = Counts(kind: Kind, local: nat, global: nat)

  type Refs = map<Obj, Counts>

  /** Slots of the object arrays in memory, by the address of the array. */
  type Arrays = map<Obj, seq<Obj>>

  /** The placeholder handles that are never tracked. */
  predicate Reserved(o: Obj) {
    o == 0 || o == 0x42424242 || o == 0x69696969
  }

  /** Handles the table may hold: not a placeholder, not a process-lifetime object. */
  predicate Trackable(o: Obj, foreign: set<Obj>) {
    !Reserved(o) && o !in foreign
  }

  ghost function Elems<T>(s: seq<T>): set<T> {
    set x | x in s
  }

  function LocalOf(refs: Refs, o: Obj): nat {
    if o in refs then refs[o].local else 0
  }

  function GlobalOf(refs: Refs, o: Obj): nat {
    if o in refs then refs[o].global else 0
  }

  /** How many slots of the array `a` hold `o`. */
  ghost function SlotsOf(arrays: Arrays, a: Obj, o: Obj): nat {
    if a in arrays then multiset(arrays[a])[o] else 0
  }

  /** How many slots of the arrays among `keys` hold `o`. */
  ghost function SlotCount(keys: set<Obj>, arrays: Arrays, o: Obj): nat {
    if keys == {} then 0 else
    var a :| a in keys;
    SlotsOf(arrays, a, o) + SlotCount(keys - {a}, arrays, o)
  }

  lemma {:induction false} SlotCountTake(keys: set<Obj>, arrays: Arrays, o: Obj, a: Obj)
    requires a in keys
    ensures SlotCount(keys, arrays, o) == SlotsOf(arrays, a, o) + SlotCount(keys - {a}, arrays, o)
  {
    var b :| b in keys && SlotCount(keys, arrays, o) == SlotsOf(arrays, b, o) + SlotCount(keys - {b}, arrays, o);
    if a != b {
      SlotCountTake(keys - {b}, arrays, o, a);
      SlotCountTake(keys - {a}, arrays, o, b);
      assert keys - {b} - {a} == keys - {a} - {b};
    }
  }

  /** Only the arrays among `keys` matter. */
  lemma {:induction false} SlotCountFrame(keys: set<Obj>, arrays: Arrays, arrays': Arrays, o: Obj)
    requires forall a :: a in keys ==> SlotsOf(arrays, a, o) == SlotsOf(arrays', a, o)
    ensures SlotCount(keys, arrays, o) == SlotCount(keys, arrays', o)
  {
    if keys != {} {
      var a :| a in keys;
      SlotCountTake(keys, arrays, o, a);
      SlotCountTake(keys, arrays', o, a);
      SlotCountFrame(keys - {a}, arrays, arrays', o);
    }
  }

  /** Some array among `keys` has a slot holding `o`. */
  ghost predicate SlotIn(keys: set<Obj>, arrays: Arrays, o: Obj) {
    exists a :: a in keys && SlotsOf(arrays, a, o) > 0
  }

  lemma {:induction false} SlotCountZero(keys: set<Obj>, arrays: Arrays, o: Obj)
    ensures SlotCount(keys, arrays, o) > 0 <==> SlotIn(keys, arrays, o)
  {
    if keys != {} {
      var a :| a in keys && SlotCount(keys, arrays, o) == SlotsOf(arrays, a, o) + SlotCount(keys - {a}, arrays, o);
      SlotCountZero(keys - {a}, arrays, o);
      if SlotIn(keys, arrays, o) {
        var b :| b in keys && SlotsOf(arrays, b, o) > 0;
        assert b == a || b in keys - {a};
      }
    }
  }

  /** The counters of `o` equal its holders, and a tracked object has one. */
  ghost predicate Balanced(refs: Refs, arrays: Arrays, o: Obj, ls: multiset<Obj>, gs: multiset<Obj>) {
    && LocalOf(refs, o) == ls[o]
    && GlobalOf(refs, o) == gs[o] + SlotCount(refs.Keys, arrays, o)
    && (o in refs ==> refs[o].local + refs[o].global > 0)
  }

  /**
   The counting invariant. `ls` and `gs` are the references held outside the graph:
   each counter is exactly the number of holders of its kind, every tracked object
   has a holder, and whatever is held and trackable is tracked.
   */
  ghost predicate Counted(refs: Refs, arrays: Arrays, foreign: set<Obj>, ls: multiset<Obj>, gs: multiset<Obj>) {
    && (forall o :: o in refs ==> Trackable(o, foreign) && refs[o].kind != Unknown)
    && (forall a :: a in arrays && a in refs ==> refs[a].kind == Array)
    && (forall o :: Trackable(o, foreign) ==> Balanced(refs, arrays, o, ls, gs))
  }

  /**
   `dead` lists objects in an order in which they can be freed one by one: when its
   turn comes, an object has no outside holder and no slot of a surviving array holds it.
   */
  ghost predicate IsCascade(keys: set<Obj>, arrays: Arrays, held: multiset<Obj>, dead: seq<Obj>) {
    forall k :: 0 <= k < |dead| ==> CanDie(keys, arrays, held, dead[..k], dead[k])
  }

  ghost predicate CanDie(keys: set<Obj>, arrays: Arrays, held: multiset<Obj>, gone: seq<Obj>, o: Obj) {
    && o in keys
    && o !in gone
    && o !in held
    && !SlotIn(keys - Elems(gone), arrays, o)
  }

  /** Every survivor still has a holder, so nothing more can be freed. */
  ghost predicate IsComplete(keys: set<Obj>, arrays: Arrays, held: multiset<Obj>, dead: seq<Obj>) {
    forall o :: o in keys && o !in dead ==> o in held || SlotIn(keys - Elems(dead), arrays, o)
  }

  lemma SlotInMonotone(keys: set<Obj>, keys': set<Obj>, arrays: Arrays, o: Obj)
    requires keys <= keys' && SlotIn(keys, arrays, o)
    ensures SlotIn(keys', arrays, o)
  {
  }

  /** A cascade frees nothing that some complete cascade keeps. */
  lemma {:induction false} CascadeWithin(keys: set<Obj>, arrays: Arrays, held: multiset<Obj>,
                                         part: seq<Obj>, whole: seq<Obj>, n: nat)
    requires IsCascade(keys, arrays, held, part) && n <= |part|
    requires IsComplete(keys, arrays, held, whole)
    ensures Elems(part[..n]) <= Elems(whole)
  {
    if n > 0 {
      CascadeWithin(keys, arrays, held, part, whole, n - 1);
      var o := part[n - 1];
      assert CanDie(keys, arrays, held, part[..n - 1], o);
      var rest, rest' := keys - Elems(whole), keys - Elems(part[..n - 1]);
      if SlotIn(rest, arrays, o) {
        SlotInMonotone(rest, rest', arrays, o);
      }
      assert part[..n] == part[..n - 1] + [o];
    }
  }

  /**
   Which objects die is fixed by who holds what: any two complete cascades free
   the same set, whatever order they visit the graph in.
   */
  lemma {:induction false} CascadeUnique(keys: set<Obj>, arrays: Arrays, held: multiset<Obj>,
                                         dead1: seq<Obj>, dead2: seq<Obj>)
    requires IsCascade(keys, arrays, held, dead1) && IsComplete(keys, arrays, held, dead1)
    requires IsCascade(keys, arrays, held, dead2) && IsComplete(keys, arrays, held, dead2)
    ensures Elems(dead1) == Elems(dead2)
  {
    CascadeWithin(keys, arrays, held, dead1, dead2, |dead1|);
    CascadeWithin(keys, arrays, held, dead2, dead1, |dead2|);
    assert dead1[..|dead1|] == dead1 && dead2[..|dead2|] == dead2;
  }

  /** Cascades compose, and holders that were dropped in between do not matter. */
  lemma {:induction false} CascadeAppend(keys: set<Obj>, arrays: Arrays, held: multiset<Obj>, first: seq<Obj>,
                                         arrays': Arrays, held': multiset<Obj>, second: seq<Obj>)
    requires IsCascade(keys, arrays, held, first)
    requires held' <= held
    requires forall a, o :: a in keys && a !in first ==> SlotsOf(arrays, a, o) == SlotsOf(arrays', a, o)
    requires IsCascade(keys - Elems(first), arrays', held', second)
    ensures IsCascade(keys, arrays, held', first + second)
  {
    var dead := first + second;
    forall k | 0 <= k < |dead|
      ensures CanDie(keys, arrays, held', dead[..k], dead[k])
    {
      if k < |first| {
        assert dead[..k] == first[..k];
        assert CanDie(keys, arrays, held, first[..k], first[k]);
      } else {
        var j := k - |first|;
        assert dead[..k] == first + second[..j];
        assert CanDie(keys - Elems(first), arrays', held', second[..j], second[j]);
        assert keys - Elems(dead[..k]) == keys - Elems(first) - Elems(second[..j]);
      }
    }
  }

  /** In a counted state whose keys are the survivors of `dead`, nothing more can die. */
  lemma CountedIsComplete(keys: set<Obj>, arrays: Arrays, refs: Refs, arrays': Arrays, foreign: set<Obj>,
                          ls: multiset<Obj>, gs: multiset<Obj>, dead: seq<Obj>)
    requires Counted(refs, arrays', foreign, ls, gs)
    requires refs.Keys == keys - Elems(dead)
    requires arrays' == arrays - Elems(dead)
    ensures IsComplete(keys, arrays, ls + gs, dead)
  {
    forall o | o in keys && o !in dead
      ensures o in ls + gs || SlotIn(keys - Elems(dead), arrays, o)
    {
      assert o in refs && Trackable(o, foreign);
      assert Balanced(refs, arrays', o, ls, gs);
      SlotCountZero(refs.Keys, arrays', o);
      if a :| a in refs.Keys && SlotsOf(arrays', a, o) > 0 {
        assert SlotsOf(arrays, a, o) > 0;
      }
    }
  }

  /** No slot of a live array names an object that is not tracked. */
  lemma NoDanglingSlot(refs: Refs, arrays: Arrays, foreign: set<Obj>,
                       ls: multiset<Obj>, gs: multiset<Obj>, a: Obj, i: nat)
    requires Counted(refs, arrays, foreign, ls, gs)
    requires a in refs && a in arrays && i < |arrays[a]| && Trackable(arrays[a][i], foreign)
    ensures arrays[a][i] in refs && refs[arrays[a][i]].global > 0
  {
    var o := arrays[a][i];
    assert SlotsOf(arrays, a, o) > 0;
    SlotCountZero(refs.Keys, arrays, o);
    assert Balanced(refs, arrays, o, ls, gs);
  }

  /** The slots of `a` as references held outside the graph. */
  ghost function SlotRefs(arrays: Arrays, a: Obj): multiset<Obj> {
    if a in arrays then multiset(arrays[a]) else multiset{}
  }

  /** Taking an object whose last reference goes out of the table turns its slots into outside references. */
  lemma UntrackCounted(refs: Refs, arrays: Arrays, foreign: set<Obj>, ls: multiset<Obj>, gs: multiset<Obj>,
                       ls': multiset<Obj>, gs': multiset<Obj>, obj: Obj)
    requires Counted(refs, arrays, foreign, ls, gs) && obj in refs
    requires forall o :: o != obj ==> ls'[o] == ls[o] && gs'[o] == gs[o]
    requires ls'[obj] == 0 && gs'[obj] + SlotCount(refs.Keys, arrays, obj) == 0
    ensures Counted(refs - {obj}, arrays, foreign, ls', gs' + SlotRefs(arrays, obj))
  {
    var refs', gs'' := refs - {obj}, gs' + SlotRefs(arrays, obj);
    forall o | Trackable(o, foreign)
      ensures Balanced(refs', arrays, o, ls', gs'')
    {
      assert Balanced(refs, arrays, o, ls, gs);
      SlotCountTake(refs.Keys, arrays, o, obj);
      assert refs'.Keys == refs.Keys - {obj};
    }
  }

  /** Changing one object's counters together with its holders keeps the invariant. */
  lemma RecountCounted(refs: Refs, arrays: Arrays, foreign: set<Obj>, ls: multiset<Obj>, gs: multiset<Obj>,
                       ls': multiset<Obj>, gs': multiset<Obj>, obj: Obj, c: Counts)
    requires Counted(refs, arrays, foreign, ls, gs) && obj in refs
    requires forall o :: o != obj ==> ls'[o] == ls[o] && gs'[o] == gs[o]
    requires c.kind == refs[obj].kind && c.local + c.global > 0
    requires c.local == ls'[obj] && c.global == gs'[obj] + SlotCount(refs.Keys, arrays, obj)
    ensures Counted(refs[obj := c], arrays, foreign, ls', gs')
  {
    var refs' := refs[obj := c];
    assert refs'.Keys == refs.Keys;
    forall o | Trackable(o, foreign)
      ensures Balanced(refs', arrays, o, ls', gs')
    {
      assert Balanced(refs, arrays, o, ls, gs);
    }
  }

  /** The counters after dropping a reference of one kind: nothing goes below zero. */
  function Dropped(c: Counts, preferGlobal: bool): Counts {
    if preferGlobal && c.global > 0 then c.(global := c.global - 1)
    else if !preferGlobal && c.local > 0 then c.(local := c.local - 1)
    else c
  }

  /** Memory and table as the reference operations see them. */
  datatype State = State(refs: Refs, arrays: Arrays, heap: set<Obj>)

  /** The object has left the table but not yet memory. */
  function Untracked(s: State, obj: Obj): State {
    s.(refs := s.refs - {obj})
  }

  /** The memory of the object has been freed. */
  function Buried(s: State, obj: Obj): State {
    s.(arrays := s.arrays - {obj}, heap := s.heap - {obj})
  }

  /**
   `t` is `s` after freeing `dead` one by one: exactly those objects are gone, each
   freed once, survivors keep their kind, and `held` kept none of the dead alive.
   */
  ghost predicate Freed(s: State, t: State, held: multiset<Obj>, dead: seq<Obj>) {
    && t.refs.Keys == s.refs.Keys - Elems(dead)
    && t.arrays == s.arrays - Elems(dead)
    && t.heap == s.heap - Elems(dead)
    && (forall o :: o in t.refs ==> t.refs[o].kind == s.refs[o].kind)
    && IsCascade(s.refs.Keys, s.arrays, held, dead)
  }

  lemma FreedAppend(s: State, t: State, u: State, held: multiset<Obj>, held': multiset<Obj>,
                    first: seq<Obj>, second: seq<Obj>)
    requires Freed(s, t, held, first) && Freed(t, u, held', second) && held' <= held
    ensures Freed(s, u, held', first + second)
  {
    CascadeAppend(s.refs.Keys, s.arrays, held, first, t.arrays, held', second);
    assert Elems(first + second) == Elems(first) + Elems(second);
  }

  /** Memory outside the tracked arrays does not matter to the invariant. */
  lemma CountedFrame(refs: Refs, arrays: Arrays, arrays': Arrays, foreign: set<Obj>,
                     ls: multiset<Obj>, gs: multiset<Obj>)
    requires Counted(refs, arrays, foreign, ls, gs)
    requires forall a :: a in refs ==> (a in arrays <==> a in arrays') && (a in arrays ==> arrays[a] == arrays'[a])
    ensures Counted(refs, arrays', foreign, ls, gs)
  {
    forall o | Trackable(o, foreign)
      ensures Balanced(refs, arrays', o, ls, gs)
    {
      assert Balanced(refs, arrays, o, ls, gs);
      SlotCountFrame(refs.Keys, arrays, arrays', o);
    }
  }

  /** An object that nothing holds can be freed on its own. */
  lemma SingleFreed(s: State, held: multiset<Obj>, obj: Obj)
    requires obj in s.refs && obj !in held && SlotCount(s.refs.Keys, s.arrays, obj) == 0
    ensures Freed(s, Buried(Untracked(s, obj), obj), held, [obj])
  {
    SlotCountZero(s.refs.Keys, s.arrays, obj);
    assert Elems([obj]) == {obj};
    assert s.refs.Keys - Elems([obj][..0]) == s.refs.Keys;
  }

  /** Dropping a reference to an untracked object changes nothing. */
  lemma UntrackedDrop(refs: Refs, arrays: Arrays, foreign: set<Obj>, ls: multiset<Obj>, gs: multiset<Obj>,
                      ls': multiset<Obj>, gs': multiset<Obj>, obj: Obj)
    requires Counted(refs, arrays, foreign, ls, gs) && obj !in refs
    requires forall o :: o != obj ==> ls'[o] == ls[o] && gs'[o] == gs[o]
    requires ls'[obj] <= ls[obj] && gs'[obj] <= gs[obj]
    ensures Counted(refs, arrays, foreign, ls', gs')
  {
    forall o | Trackable(o, foreign)
      ensures Balanced(refs, arrays, o, ls', gs')
    {
      assert Balanced(refs, arrays, o, ls, gs);
    }
  }

  lemma NothingFreed(s: State, held: multiset<Obj>)
    ensures Freed(s, s, held, [])
  {
    assert Elems<Obj>([]) == {};
  }

  /** An untracked array plays no part in a cascade. */
  lemma FreedWithout(s: State, t: State, held: multiset<Obj>, dead: seq<Obj>, obj: Obj)
    requires Freed(s, t, held, dead) && obj !in s.refs
    ensures Freed(Buried(s, obj), Buried(t, obj), held, dead)
  {
    forall k | 0 <= k < |dead|
      ensures CanDie(s.refs.Keys, s.arrays - {obj}, held, dead[..k], dead[k])
    {
      assert CanDie(s.refs.Keys, s.arrays, held, dead[..k], dead[k]);
    }
  }

  /** The counters of a tracked object are its holders, counted. */
  lemma CountsExact(refs: Refs, arrays: Arrays, foreign: set<Obj>, ls: multiset<Obj>, gs: multiset<Obj>, obj: Obj)
    requires Counted(refs, arrays, foreign, ls, gs) && obj in refs
    ensures Trackable(obj, foreign) && refs[obj].kind != Unknown
    ensures obj in arrays ==> refs[obj].kind == Array
    ensures refs[obj].local == ls[obj]
    ensures refs[obj].global == gs[obj] + SlotCount(refs.Keys, arrays, obj)
    ensures refs[obj].local + refs[obj].global > 0
  {
    assert Balanced(refs, arrays, obj, ls, gs);
  }

  /** What is held while the slots from `i` on are still to be released. */
  ghost function Owing(gs: multiset<Obj>, slots: seq<Obj>, i: nat): multiset<Obj>
    requires i <= |slots|
  {
    gs + multiset(slots[i..])
  }

  lemma OwingEnds(gs: multiset<Obj>, arrays: Arrays, a: Obj)
    requires a in arrays
    ensures Owing(gs, arrays[a], 0) == gs + SlotRefs(arrays, a)
    ensures Owing(gs, arrays[a], |arrays[a]|) == gs
  {
    var slots := arrays[a];
    assert slots[0..] == slots && slots[|slots|..] == [];
  }

  lemma NoSlots(arrays: Arrays, a: Obj, gs: multiset<Obj>)
    requires a !in arrays
    ensures gs + SlotRefs(arrays, a) == gs
  {
  }

  /** The invariant of table and memory while `ls` and `gs` are held outside the graph. */
  ghost predicate Sound(s: State, foreign: set<Obj>, ls: multiset<Obj>, gs: multiset<Obj>) {
    && Counted(s.refs, s.arrays, foreign, ls, gs)
    && s.refs.Keys <= s.heap
    && s.arrays.Keys <= s.heap
  }

  /** `ls'` and `gs'` are `ls` and `gs` without one reference to `obj` of the named kind. */
  ghost predicate Surrendered(obj: Obj, preferGlobal: bool, ls: multiset<Obj>, gs: multiset<Obj>,
                              ls': multiset<Obj>, gs': multiset<Obj>) {
    if preferGlobal then ls' == ls && gs' == gs - multiset{obj}
    else ls' == ls - multiset{obj} && gs' == gs
  }

  lemma OwingStep(ls: multiset<Obj>, gs: multiset<Obj>, slots: seq<Obj>, i: nat)
    requires i < |slots|
    ensures slots[i] in Owing(gs, slots, i)
    ensures Surrendered(slots[i], true, ls, Owing(gs, slots, i), ls, Owing(gs, slots, i + 1))
    ensures ls + Owing(gs, slots, i + 1) <= ls + Owing(gs, slots, i)
  {
    assert slots[i..] == [slots[i]] + slots[i + 1..];
  }

  /** What giving up one reference does to the table, case by case. */
  lemma ReleaseSound(s: State, foreign: set<Obj>, obj: Obj, preferGlobal: bool,
                     ls: multiset<Obj>, gs: multiset<Obj>, ls': multiset<Obj>, gs': multiset<Obj>)
    requires Sound(s, foreign, ls, gs) && Surrendered(obj, preferGlobal, ls, gs, ls', gs')
    requires preferGlobal && obj in s.refs ==> obj in gs || s.refs[obj].global == 0
    ensures obj in s.refs ==> !Reserved(obj) && s.refs[obj].kind != Unknown && obj in s.heap
    ensures obj in s.refs && obj in s.arrays ==> s.refs[obj].kind == Array
    ensures obj !in s.refs ==> Sound(s, foreign, ls', gs')
    ensures obj in s.refs ==>
              var c := Dropped(s.refs[obj], preferGlobal);
              if c.local == 0 && c.global == 0 then
                && Sound(Untracked(s, obj), foreign, ls', gs' + SlotRefs(s.arrays, obj))
                && Freed(s, Buried(Untracked(s, obj), obj), ls' + gs', [obj])
              else
                && Sound(s.(refs := s.refs[obj := c]), foreign, ls', gs')
                && Freed(s, s.(refs := s.refs[obj := c]), ls' + gs', [])
  {
    hide Counted, SlotIn, IsCascade, SlotRefs;
    if obj !in s.refs {
      UntrackedDrop(s.refs, s.arrays, foreign, ls, gs, ls', gs', obj);
    } else {
      CountsExact(s.refs, s.arrays, foreign, ls, gs, obj);
      var c := Dropped(s.refs[obj], preferGlobal);
      if c.local == 0 && c.global == 0 {
        UntrackCounted(s.refs, s.arrays, foreign, ls, gs, ls', gs', obj);
        SingleFreed(s, ls' + gs', obj);
      } else {
        RecountCounted(s.refs, s.arrays, foreign, ls, gs, ls', gs', obj, c);
        NothingFreed(s, ls' + gs');
      }
    }
  }

  /** The same with the drop that nobody has a reference for. */
  lemma ReleaseAny(s: State, foreign: set<Obj>, obj: Obj, preferGlobal: bool,
                   ls: multiset<Obj>, gs: multiset<Obj>, ls': multiset<Obj>, gs': multiset<Obj>)
    requires Sound(s, foreign, ls, gs) && Surrendered(obj, preferGlobal, ls, gs, ls', gs')
    ensures obj in s.refs ==> !Reserved(obj) && s.refs[obj].kind != Unknown && obj in s.heap
    ensures obj in s.refs && obj in s.arrays ==> s.refs[obj].kind == Array
    ensures obj !in s.refs ==> Sound(s, foreign, ls', gs')
    ensures obj in s.refs ==>
              var c, covered := Dropped(s.refs[obj], preferGlobal), Covered(s.refs, obj, preferGlobal, gs);
              if c.local == 0 && c.global == 0 then
                && Sound(Untracked(s, obj), if covered then foreign else foreign + {obj},
                         ls', gs' + SlotRefs(s.arrays, obj))
                && (covered ==> Freed(s, Buried(Untracked(s, obj), obj), ls' + gs', [obj]))
              else covered ==>
                && Sound(s.(refs := s.refs[obj := c]), foreign, ls', gs')
                && Freed(s, s.(refs := s.refs[obj := c]), ls' + gs', [])
  {
    hide Sound, Freed, SlotRefs;
    if Covered(s.refs, obj, preferGlobal, gs) {
      ReleaseSound(s, foreign, obj, preferGlobal, ls, gs, ls', gs');
    } else {
      UnheldDrop(s, foreign, obj, ls, gs);
      assert ls' == ls && gs' == gs;
    }
  }

  /** A slot of a tracked array holds `o`. */
  ghost predicate HeldBySlot(s: State, o: Obj) {
    exists a :: a in s.refs && a in s.arrays && o in s.arrays[a]
  }

  /** The global count of an object nobody holds globally comes from slots. */
  lemma UnheldCount(s: State, foreign: set<Obj>, obj: Obj, ls: multiset<Obj>, gs: multiset<Obj>)
    requires Sound(s, foreign, ls, gs) && obj in s.refs && obj !in gs
    ensures s.refs[obj].global > 0 <==> HeldBySlot(s, obj)
  {
    CountsExact(s.refs, s.arrays, foreign, ls, gs, obj);
    SlotCountZero(s.refs.Keys, s.arrays, obj);
    if SlotIn(s.refs.Keys, s.arrays, obj) {
      var a :| a in s.refs.Keys && SlotsOf(s.arrays, a, obj) > 0;
      assert obj in s.arrays[a];
    }
    if HeldBySlot(s, obj) {
      var a :| a in s.refs && a in s.arrays && obj in s.arrays[a];
      assert SlotsOf(s.arrays, a, obj) > 0;
    }
  }

  /** Whoever drops a global reference holds one, or there is none to drop. */
  ghost predicate Covered(refs: Refs, obj: Obj, preferGlobal: bool, gs: multiset<Obj>) {
    preferGlobal && obj in refs ==> obj in gs || refs[obj].global == 0
  }

  /** Where the global reference nobody holds was the last one, the object goes, and its slots are left to release. */
  lemma UnheldDrop(s: State, foreign: set<Obj>, obj: Obj, ls: multiset<Obj>, gs: multiset<Obj>)
    requires Sound(s, foreign, ls, gs) && obj in s.refs && !Covered(s.refs, obj, true, gs)
    ensures !Reserved(obj) && s.refs[obj].kind != Unknown && obj in s.heap
    ensures obj in s.arrays ==> s.refs[obj].kind == Array
    ensures s.refs[obj].local == 0 && s.refs[obj].global == 1 ==>
              Sound(Untracked(s, obj), foreign + {obj}, ls, gs + SlotRefs(s.arrays, obj))
  {
    hide SlotRefs, Balanced;
    CountsExact(s.refs, s.arrays, foreign, ls, gs, obj);
    if s.refs[obj].local == 0 && s.refs[obj].global == 1 {
      forall o | Trackable(o, foreign + {obj})
        ensures Balanced(s.refs - {obj}, s.arrays, o, ls, gs + SlotRefs(s.arrays, obj))
      {
        UnheldBalanced(s, foreign, obj, ls, gs, o);
      }
    }
  }

  lemma UnheldBalanced(s: State, foreign: set<Obj>, obj: Obj, ls: multiset<Obj>, gs: multiset<Obj>, o: Obj)
    requires Sound(s, foreign, ls, gs) && obj in s.refs && Trackable(o, foreign) && o != obj
    ensures Balanced(s.refs - {obj}, s.arrays, o, ls, gs + SlotRefs(s.arrays, obj))
  {
    assert Balanced(s.refs, s.arrays, o, ls, gs);
    SlotCountTake(s.refs.Keys, s.arrays, o, obj);
    assert (s.refs - {obj}).Keys == s.refs.Keys - {obj};
  }

  /**
   What dropping a global reference leaves that nobody holds: a counter that is one too
   low, or a state that is sound if `obj` counts as never tracked.
   */
  ghost predicate Stale(s: State, t: State, foreign: set<Obj>, obj: Obj, ls: multiset<Obj>, gs: multiset<Obj>,
                        dead: seq<Obj>)
    requires obj in s.refs
  {
    var c := Dropped(s.refs[obj], true);
    if c.local == 0 && c.global == 0 then
      && dead != [] && dead[0] == obj && Sound(t, foreign + {obj}, ls, gs)
      && Freed(Buried(Untracked(s, obj), obj), t, ls + gs, dead[1..])
    else dead == [] && t == s.(refs := s.refs[obj := c])
  }

  /** Without `obj` the cascade takes every other array that holds it. */
  ghost predicate Orphaned(s: State, obj: Obj, held: multiset<Obj>) {
    exists dead: seq<Obj> ::
      && IsCascade(s.refs.Keys - {obj}, s.arrays - {obj}, held, dead)
      && IsComplete(s.refs.Keys - {obj}, s.arrays - {obj}, held, dead)
      && HoldersIn(s, obj, dead)
  }

  ghost predicate HoldersIn(s: State, obj: Obj, dead: seq<Obj>) {
    forall a :: a in s.refs && a in s.arrays && obj in s.arrays[a] ==> a == obj || a in dead
  }

  /** A counter that is one too low is not sound. */
  lemma LowCountSpoils(s: State, foreign: set<Obj>, obj: Obj, ls: multiset<Obj>, gs: multiset<Obj>)
    requires Sound(s, foreign, ls, gs) && obj in s.refs && s.refs[obj].global > 0
    ensures !Sound(s.(refs := s.refs[obj := Dropped(s.refs[obj], true)]), foreign, ls, gs)
  {
    var t := s.(refs := s.refs[obj := Dropped(s.refs[obj], true)]);
    CountsExact(s.refs, s.arrays, foreign, ls, gs, obj);
    assert t.refs.Keys == s.refs.Keys;
    if Sound(t, foreign, ls, gs) {
      CountsExact(t.refs, t.arrays, foreign, ls, gs, obj);
    }
  }

  /** After the object has gone: the state is sound exactly if no array that is left holds it. */
  lemma GoneExact(t: State, foreign: set<Obj>, obj: Obj, ls: multiset<Obj>, gs: multiset<Obj>)
    requires Sound(t, foreign + {obj}, ls, gs) && Trackable(obj, foreign) && ls[obj] == 0 && gs[obj] == 0
    ensures obj !in t.refs
    ensures Sound(t, foreign, ls, gs) <==> !HeldBySlot(t, obj)
  {
    assert forall o :: o in t.refs ==> Trackable(o, foreign + {obj});
    if HeldBySlot(t, obj) {
      var a :| a in t.refs && a in t.arrays && obj in t.arrays[a];
      var i :| 0 <= i < |t.arrays[a]| && t.arrays[a][i] == obj;
      if Sound(t, foreign, ls, gs) {
        NoDanglingSlot(t.refs, t.arrays, foreign, ls, gs, a, i);
      }
    } else {
      NoHolderNoCount(t, obj);
      hide SlotCount;
      forall o | Trackable(o, foreign)
        ensures Balanced(t.refs, t.arrays, o, ls, gs)
      {
        assert o != obj ==> Balanced(t.refs, t.arrays, o, ls, gs);
      }
    }
  }

  lemma NoHolderNoCount(t: State, obj: Obj)
    requires !HeldBySlot(t, obj)
    ensures SlotCount(t.refs.Keys, t.arrays, obj) == 0
  {
    SlotCountZero(t.refs.Keys, t.arrays, obj);
    assert forall a :: a in t.refs.Keys && a in t.arrays ==> obj !in t.arrays[a];
  }

  /** Who is left of the arrays that held the object. */
  lemma HoldersLeft(s: State, t: State, obj: Obj, held: multiset<Obj>, dead: seq<Obj>)
    requires Freed(Buried(Untracked(s, obj), obj), t, held, dead)
    ensures HeldBySlot(t, obj) <==> !HoldersIn(s, obj, dead)
  {
    if !HoldersIn(s, obj, dead) {
      var a :| a in s.refs && a in s.arrays && obj in s.arrays[a] && a != obj && a !in dead;
      assert a in t.refs && a in t.arrays && t.arrays[a] == s.arrays[a];
    }
    if HeldBySlot(t, obj) {
      var a :| a in t.refs && a in t.arrays && obj in t.arrays[a];
      assert a in s.refs && a in s.arrays && a != obj && a !in dead && t.arrays[a] == s.arrays[a];
    }
  }

  /**
   Dropping a global reference nobody holds is harmless exactly if it was the last one of
   the object, in a slot, and every array that holds the object dies with it.
   */
  lemma StaleExact(s: State, t: State, foreign: set<Obj>, obj: Obj, ls: multiset<Obj>, gs: multiset<Obj>,
                   dead: seq<Obj>)
    requires Settled(s, foreign, ls, gs) && obj in s.refs && !Covered(s.refs, obj, true, gs)
    requires Stale(s, t, foreign, obj, ls, gs, dead)
    ensures Settled(t, foreign, ls, gs)
       <==> s.refs[obj].local == 0 && s.refs[obj].global == 1 && Orphaned(s, obj, ls + gs)
  {
    CountsExact(s.refs, s.arrays, foreign, ls, gs, obj);
    hide Sound, IsCascade, IsComplete, HoldersIn;
    if s.refs[obj].local == 0 && s.refs[obj].global == 1 {
      var start, more := Buried(Untracked(s, obj), obj), dead[1..];
      assert start.refs.Keys == s.refs.Keys - {obj} && start.arrays == s.arrays - {obj};
      ReleaseSettles(start, t, foreign + {obj}, ls, gs, more);
      GoneExact(t, foreign, obj, ls, gs);
      HoldersLeft(s, t, obj, ls + gs, more);
      OrphanedBy(s, obj, ls + gs, more);
    } else {
      LowCountSpoils(s, foreign, obj, ls, gs);
    }
  }

  /** Any complete cascade tells. */
  lemma OrphanedBy(s: State, obj: Obj, held: multiset<Obj>, dead: seq<Obj>)
    requires IsCascade(s.refs.Keys - {obj}, s.arrays - {obj}, held, dead)
    requires IsComplete(s.refs.Keys - {obj}, s.arrays - {obj}, held, dead)
    ensures Orphaned(s, obj, held) <==> HoldersIn(s, obj, dead)
  {
    hide IsCascade, IsComplete;
    if Orphaned(s, obj, held) {
      var other: seq<Obj> :|
        && IsCascade(s.refs.Keys - {obj}, s.arrays - {obj}, held, other)
        && IsComplete(s.refs.Keys - {obj}, s.arrays - {obj}, held, other)
        && HoldersIn(s, obj, other);
      CascadeUnique(s.refs.Keys - {obj}, s.arrays - {obj}, held, dead, other);
      assert forall a :: a in Elems(other) <==> a in Elems(dead);
      assert forall a :: a in other <==> a in Elems(other);
    }
  }

  /** Freeing the memory of an untracked object. */
  lemma BurySound(s: State, t: State, foreign: set<Obj>, obj: Obj, ls: multiset<Obj>, gs: multiset<Obj>, dead: seq<Obj>)
    requires Sound(t, foreign, ls, gs) && Freed(s, t, ls + gs, dead) && obj !in s.refs
    ensures var u := State(t.refs, t.arrays - {obj}, t.heap - {obj});
            Sound(u, foreign, ls, gs) && Freed(Buried(s, obj), u, ls + gs, dead)
  {
    FreedWithout(s, t, ls + gs, dead, obj);
    CountedFrame(t.refs, t.arrays, t.arrays - {obj}, foreign, ls, gs);
  }

  lemma {:induction false} Subset<T>(a: set<T>, b: set<T>)
    requires a <= b
    ensures |a| <= |b|
  {
    if a != {} {
      var x :| x in a;
      Subset(a - {x}, b - {x});
    }
  }

  /** Freeing shrinks the table and leaves memory outside it alone. */
  lemma FreedFrame(s: State, t: State, held: multiset<Obj>, dead: seq<Obj>, a: Obj)
    requires Freed(s, t, held, dead) && a !in s.refs
    ensures |t.refs| <= |s.refs|
    ensures a !in t.refs && (a in s.heap <==> a in t.heap)
    ensures a in s.arrays ==> a in t.arrays && t.arrays[a] == s.arrays[a]
  {
    Subset(t.refs.Keys, s.refs.Keys);
  }

  /** Writing to an array that is not tracked. */
  lemma UntrackedWriteSound(s: State, foreign: set<Obj>, ls: multiset<Obj>, gs: multiset<Obj>, a: Obj, slots: seq<Obj>)
    requires Sound(s, foreign, ls, gs) && a !in s.refs
    ensures Sound(State(s.refs, s.arrays[a := slots], s.heap + {a}), foreign, ls, gs)
  {
    CountedFrame(s.refs, s.arrays, s.arrays[a := slots], foreign, ls, gs);
  }

  /** The table after adding one reference: untracked objects are left alone. */
  function AddedRef(refs: Refs, obj: Obj, asGlobal: bool): Refs {
    if Reserved(obj) || obj !in refs then refs else refs[obj := WithRef(refs[obj], asGlobal)]
  }

  /** One more reference of either kind to an object that is tracked, or never will be. */
  lemma AddRefSound(s: State, foreign: set<Obj>, ls: multiset<Obj>, gs: multiset<Obj>, obj: Obj, asGlobal: bool)
    requires Sound(s, foreign, ls, gs) && (obj in s.refs || !Trackable(obj, foreign))
    ensures var t := s.(refs := AddedRef(s.refs, obj, asGlobal));
            && SameShape(s, t)
            && Sound(t, foreign, if asGlobal then ls else ls + multiset{obj},
                     if asGlobal then gs + multiset{obj} else gs)
  {
    var ls', gs' := if asGlobal then ls else ls + multiset{obj}, if asGlobal then gs + multiset{obj} else gs;
    if obj in s.refs {
      CountsExact(s.refs, s.arrays, foreign, ls, gs, obj);
      RecountCounted(s.refs, s.arrays, foreign, ls, gs, ls', gs', obj, WithRef(s.refs[obj], asGlobal));
    } else {
      forall o | Trackable(o, foreign)
        ensures Balanced(s.refs, s.arrays, o, ls', gs')
      {
        assert Balanced(s.refs, s.arrays, o, ls, gs);
      }
    }
  }

  function WithRef(c: Counts, asGlobal: bool): Counts {
    if asGlobal then c.(global := c.global + 1) else c.(local := c.local + 1)
  }

  /** A new table entry takes over the references that its slots hold. */
  lemma RegisterSound(s: State, foreign: set<Obj>, ls: multiset<Obj>, gs: multiset<Obj>, obj: Obj, kind: Kind)
    requires Sound(s, foreign, ls, gs + SlotRefs(s.arrays, obj))
    requires obj !in s.refs && obj in s.heap && Trackable(obj, foreign) && kind != Unknown
    requires obj in s.arrays ==> kind == Array
    ensures Sound(s.(refs := s.refs[obj := Counts(kind, 1, 0)]), foreign, ls + multiset{obj}, gs)
  {
    var refs' := s.refs[obj := Counts(kind, 1, 0)];
    assert refs'.Keys - {obj} == s.refs.Keys;
    assert Balanced(s.refs, s.arrays, obj, ls, gs + SlotRefs(s.arrays, obj));
    forall o | Trackable(o, foreign)
      ensures Balanced(refs', s.arrays, o, ls + multiset{obj}, gs)
    {
      assert Balanced(s.refs, s.arrays, o, ls, gs + SlotRefs(s.arrays, obj));
      SlotCountTake(refs'.Keys, s.arrays, o, obj);
    }
  }

  /** Overwriting a slot of a tracked array trades one outside reference for another. */
  lemma StoreSound(s: State, foreign: set<Obj>, ls: multiset<Obj>, gs: multiset<Obj>, a: Obj, i: nat, v: Obj)
    requires a in s.refs && a in s.arrays && i < |s.arrays[a]|
    requires Sound(s, foreign, ls, gs + multiset{v})
    ensures Sound(WithSlot(s, a, i, v), foreign, ls, gs + multiset{s.arrays[a][i]})
  {
    var was, arrays' := s.arrays[a][i], s.arrays[a := Store(s.arrays[a], i, v)];
    forall o | Trackable(o, foreign)
      ensures Balanced(s.refs, arrays', o, ls, gs + multiset{was})
    {
      assert Balanced(s.refs, s.arrays, o, ls, gs + multiset{v});
      StoreSlots(s.arrays[a], i, v, o);
      SlotCountTake(s.refs.Keys, s.arrays, o, a);
      SlotCountTake(s.refs.Keys, arrays', o, a);
      SlotCountFrame(s.refs.Keys - {a}, s.arrays, arrays', o);
    }
  }

  function Store(s: seq<Obj>, i: nat, v: Obj): seq<Obj>
    requires i < |s|
  {
    s[i := v]
  }

  /** The state with one slot overwritten. */
  function WithSlot(s: State, a: Obj, i: nat, v: Obj): State
    requires a in s.arrays && i < |s.arrays[a]|
  {
    s.(arrays := s.arrays[a := Store(s.arrays[a], i, v)])
  }

  lemma StoreSlots(s: seq<Obj>, i: nat, v: Obj, o: Obj)
    requires i < |s|
    ensures multiset(Store(s, i, v))[o] + multiset{s[i]}[o] == multiset(s)[o] + multiset{v}[o]
  {
    assert s == s[..i] + [s[i]] + s[i + 1..];
    assert Store(s, i, v) == s[..i] + [v] + s[i + 1..];
  }

  /** The client-visible invariant: everything that is in memory as an object array is tracked. */
  ghost predicate Settled(s: State, foreign: set<Obj>, ls: multiset<Obj>, gs: multiset<Obj>) {
    Sound(s, foreign, ls, gs) && s.arrays.Keys <= s.refs.Keys
  }

  /** A release between two settled states frees a complete cascade. */
  lemma ReleaseSettles(s: State, t: State, foreign: set<Obj>, ls: multiset<Obj>, gs: multiset<Obj>, dead: seq<Obj>)
    requires Freed(s, t, ls + gs, dead) && s.arrays.Keys <= s.refs.Keys
    requires Sound(t, foreign, ls, gs)
    ensures Settled(t, foreign, ls, gs)
    ensures IsComplete(s.refs.Keys, s.arrays, ls + gs, dead)
  {
    CountedIsComplete(s.refs.Keys, s.arrays, t.refs, t.arrays, foreign, ls, gs, dead);
  }

  /** In a settled state with the same holders as before, nothing was freed and no count changed. */
  lemma NoNetEffect(s: State, t: State, foreign: set<Obj>, ls: multiset<Obj>, gs: multiset<Obj>, dead: seq<Obj>)
    requires Settled(s, foreign, ls, gs) && Sound(t, foreign, ls, gs)
    requires Freed(s, t, ls + gs, dead)
    ensures dead == [] && t == s
  {
    assert s.refs.Keys - Elems<Obj>([]) == s.refs.Keys;
    if dead != [] {
      var o := dead[0];
      assert dead[..0] == [];
      assert CanDie(s.refs.Keys, s.arrays, ls + gs, dead[..0], o);
      CountsExact(s.refs, s.arrays, foreign, ls, gs, o);
      SlotCountZero(s.refs.Keys, s.arrays, o);
      assert false;
    }
    forall o | o in s.refs
      ensures t.refs[o] == s.refs[o]
    {
      CountsExact(s.refs, s.arrays, foreign, ls, gs, o);
      assert o in t.refs;
      CountsExact(t.refs, t.arrays, foreign, ls, gs, o);
      assert t.refs.Keys == s.refs.Keys && t.arrays == s.arrays;
    }
  }

  /** Freeing does not look at counters. */
  lemma FreedCongruent(s: State, s': State, t: State, held: multiset<Obj>, dead: seq<Obj>)
    requires Freed(s', t, held, dead) && SameShape(s, s')
    ensures Freed(s, t, held, dead)
  {
  }

  ghost predicate SameShape(s: State, t: State) {
    && t.arrays == s.arrays && t.heap == s.heap && t.refs.Keys == s.refs.Keys
    && (forall o :: o in s.refs ==> t.refs[o].kind == s.refs[o].kind)
  }

  /** The slots of an object array being filled with `v`, the first `i` of them done. */
  ghost function Filling(raw: seq<Obj>, v: Obj, i: nat): seq<Obj>
    requires i <= |raw|
  {
    seq(i, _ => v) + raw[i..]
  }

  /**
   The untracked block `header` with its first `i` slots filled, each of them
   counted; nothing else differs from `start`.
   */
  ghost predicate Filled(start: State, s: State, foreign: set<Obj>, ls: multiset<Obj>, gs: multiset<Obj>,
                         header: Obj, raw: seq<Obj>, v: Obj, i: nat)
    requires i <= |raw|
  {
    && header !in start.refs
    && SameShape(State(start.refs, start.arrays[header := Filling(raw, v, i)], start.heap + {header}), s)
    && Sound(s, foreign, ls, gs + multiset(seq(i, _ => v)))
  }

  lemma FilledNone(s: State, foreign: set<Obj>, ls: multiset<Obj>, gs: multiset<Obj>, header: Obj, raw: seq<Obj>,
                   v: Obj)
    requires Sound(s, foreign, ls, gs) && header !in s.refs
    ensures Filled(s, State(s.refs, s.arrays[header := raw], s.heap + {header}), foreign, ls, gs, header, raw, v, 0)
  {
    UntrackedWriteSound(s, foreign, ls, gs, header, raw);
    assert Filling(raw, v, 0) == raw;
    assert gs + multiset(seq(0, _ => v)) == gs;
  }

  lemma FilledStep(start: State, s: State, foreign: set<Obj>, ls: multiset<Obj>, gs: multiset<Obj>,
                   header: Obj, raw: seq<Obj>, v: Obj, i: nat)
    requires i < |raw| && Filled(start, s, foreign, ls, gs, header, raw, v, i)
    requires v in start.refs || !Trackable(v, foreign)
    ensures header in s.arrays && |s.arrays[header]| == |raw|
    ensures var slots := Store(s.arrays[header], i, v);
            Filled(start, State(AddedRef(s.refs, v, true), s.arrays[header := slots], s.heap), foreign, ls, gs,
                   header, raw, v, i + 1)
  {
    hide Sound;
    var slots := Store(s.arrays[header], i, v);
    assert slots == Filling(raw, v, i + 1);
    var owed := gs + multiset(seq(i, _ => v));
    assert seq(i + 1, _ => v) == seq(i, _ => v) + [v];
    assert owed + multiset{v} == gs + multiset(seq(i + 1, _ => v));
    UntrackedWriteSound(s, foreign, ls, owed, header, slots);
    assert s.heap + {header} == s.heap;
    AddRefSound(State(s.refs, s.arrays[header := slots], s.heap), foreign, ls, owed, v, true);
  }

  lemma FilledAll(start: State, s: State, foreign: set<Obj>, ls: multiset<Obj>, gs: multiset<Obj>,
                  header: Obj, raw: seq<Obj>, v: Obj)
    requires Filled(start, s, foreign, ls, gs, header, raw, v, |raw|)
    ensures SameShape(State(start.refs, start.arrays[header := seq(|raw|, _ => v)], start.heap + {header}), s)
    ensures Sound(s, foreign, ls, gs + SlotRefs(s.arrays, header))
  {
    assert Filling(raw, v, |raw|) == seq(|raw|, _ => v);
  }

  /** Without memory for the record the filled array goes, and the counts of its elements return. */
  lemma ArrayFailed(start: State, filled: State, t: State, foreign: set<Obj>, ls: multiset<Obj>, gs: multiset<Obj>,
                    header: Obj, slots: seq<Obj>, dead: seq<Obj>)
    requires Settled(start, foreign, ls, gs) && header !in start.heap
    requires SameShape(State(start.refs, start.arrays[header := slots], start.heap + {header}), filled)
    requires Sound(t, foreign, ls, gs) && Freed(Buried(filled, header), t, ls + gs, dead)
    ensures t == start
  {
    assert Buried(filled, header).arrays == start.arrays;
    assert Buried(filled, header).heap == start.heap;
    FreedCongruent(start, Buried(filled, header), t, ls + gs, dead);
    NoNetEffect(start, t, foreign, ls, gs, dead);
  }

  lemma ArrayMade(start: State, filled: State, foreign: set<Obj>, ls: multiset<Obj>, gs: multiset<Obj>,
                  header: Obj, slots: seq<Obj>)
    requires Settled(start, foreign, ls, gs)
    requires SameShape(State(start.refs, start.arrays[header := slots], start.heap + {header}), filled)
    requires Sound(filled.(refs := filled.refs[header := Counts(Array, 1, 0)]), foreign, ls + multiset{header}, gs)
    ensures var t := filled.(refs := filled.refs[header := Counts(Array, 1, 0)]);
            && Settled(t, foreign, ls + multiset{header}, gs)
            && t.refs.Keys == start.refs.Keys + {header} && t.arrays == start.arrays[header := slots]
            && t.refs[header] == Counts(Array, 1, 0)
  {
  }

  /** Counting the new element and overwriting the slot leaves one reference to the old element to be released. */
  lemma SetElementSound(s: State, foreign: set<Obj>, ls: multiset<Obj>, gs: multiset<Obj>, a: Obj, i: nat, v: Obj)
    requires Sound(s, foreign, ls, gs) && a in s.refs && a in s.arrays && i < |s.arrays[a]|
    requires v in s.refs || !Trackable(v, foreign)
    ensures var written := WithSlot(s, a, i, v);
            var t := written.(refs := AddedRef(s.refs, v, true));
            && SameShape(written, t)
            && Sound(t, foreign, ls, gs + multiset{s.arrays[a][i]})
            && Surrendered(s.arrays[a][i], true, ls, gs + multiset{s.arrays[a][i]}, ls, gs)
  {
    hide Sound;
    AddRefSound(s, foreign, ls, gs, v, true);
    StoreSound(s.(refs := AddedRef(s.refs, v, true)), foreign, ls, gs, a, i, v);
  }
}
