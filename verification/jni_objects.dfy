/**
 Reference counting of fake JNI objects: New/Delete Local/Global refs, object
 arrays, and the recursive destruction of object-array members.
 */
module JniObjects {
  import opened ObjectGraph

  class JniHeap {
    /** The tracking table, by object. */
    var refs: Refs
    /** Object arrays in memory, tracked or being destroyed. */
    var arrays: Arrays
    /** Blocks that malloc handed out for tracked objects and free has not taken back. */
    var heap: set<Obj>
    /** Objects that live as long as the process and are never tracked: classes and tagged fake objects. */
    const foreign: set<Obj>

    /** References the client holds. */
    ghost var locals: multiset<Obj>
    ghost var globals: multiset<Obj>

    constructor (foreign: set<Obj>)
      ensures Valid() && this.foreign == foreign
      ensures refs == map[] && arrays == map[] && locals == multiset{} == globals
    {
      this.foreign := foreign;
      refs, arrays, heap := map[], map[], {};
      locals, globals := multiset{}, multiset{};
    }

    ghost predicate Valid()
      reads this
    {
      Settled(Now(), foreign, locals, globals)
    }

    /** A handle the client may pass: untracked for ever, or one it holds. */
    ghost predicate Usable(o: Obj)
      reads this
    {
      !Trackable(o, foreign) || o in locals || o in globals
    }

    /** An address malloc may return. */
    predicate Fresh(o: Obj)
      reads this
    {
      Trackable(o, foreign) && o !in heap
    }

    ghost function Now(): State
      reads this
    {
      State(refs, arrays, heap)
    }

    /** Destroys an object that has left the table. The slots of an object array are released first. */
    method FreeObject(obj: Obj, kind: Kind, ghost never: set<Obj>, ghost ls: multiset<Obj>, ghost gs: multiset<Obj>)
      returns (ghost dead: seq<Obj>)
      requires obj !in refs && obj in heap && kind != Unknown
      requires obj in arrays ==> kind == Array
      requires Sound(Now(), never, ls, gs + SlotRefs(arrays, obj))
      modifies this`refs, this`arrays, this`heap
      ensures Sound(Now(), never, ls, gs)
      ensures Freed(Buried(old(Now()), obj), Now(), ls + gs, dead)
      decreases |refs|, 2
    {
      hide Sound, Freed, SlotRefs, Buried, Owing;
      ghost var start := Now();
      if kind == Array && obj in arrays {
        OwingEnds(gs, arrays, obj);
        dead := ReleaseSlots(obj, never, ls, gs);
      } else {
        NoSlots(arrays, obj, gs);
        NothingFreed(start, ls + gs);
        dead := [];
      }
      BurySound(start, Now(), never, obj, ls, gs, dead);
      arrays := arrays - {obj};
      heap := heap - {obj};
    }

    /** The element loop of the destructor of an object array. */
    method ReleaseSlots(obj: Obj, ghost never: set<Obj>, ghost ls: multiset<Obj>, ghost gs: multiset<Obj>)
      returns (ghost dead: seq<Obj>)
      requires obj !in refs && obj in arrays
      requires Sound(Now(), never, ls, Owing(gs, arrays[obj], 0))
      modifies this`refs, this`arrays, this`heap
      ensures Sound(Now(), never, ls, Owing(gs, old(arrays[obj]), |old(arrays[obj])|))
      ensures Freed(old(Now()), Now(), ls + Owing(gs, old(arrays[obj]), |old(arrays[obj])|), dead)
      decreases |refs|, 1
    {
      hide Sound, Freed, Owing, SlotRefs, Surrendered;
      ghost var start, slots := Now(), arrays[obj];
      dead := [];
      var i := 0;
      NothingFreed(start, ls + Owing(gs, slots, i));
      while i < |arrays[obj]|
        invariant obj !in refs && obj in arrays && arrays[obj] == slots
        invariant 0 <= i <= |slots|
        invariant |refs| <= |start.refs|
        invariant Sound(Now(), never, ls, Owing(gs, slots, i))
        invariant Freed(start, Now(), ls + Owing(gs, slots, i), dead)
        decreases |slots| - i
      {
        OwingStep(ls, gs, slots, i);
        ghost var mid := Now();
        var found; ghost var more;
        found, more := Release(arrays[obj][i], true, never, ls, Owing(gs, slots, i), ls, Owing(gs, slots, i + 1));
        FreedFrame(mid, Now(), ls + Owing(gs, slots, i + 1), more, obj);
        FreedAppend(start, mid, Now(), ls + Owing(gs, slots, i), ls + Owing(gs, slots, i + 1), dead, more);
        dead := dead + more;
        i := i + 1;
      }
      assert i == |slots|;
    }

    /**
     Drops one reference. At zero the object leaves the table first and is destroyed
     after that, so the recursion sees a strictly smaller table. `never` are the handles
     that are not tracked, the foreign ones and perhaps one more.
     */
    method Release(obj: Obj, preferGlobal: bool, ghost never: set<Obj>, ghost ls: multiset<Obj>,
                   ghost gs: multiset<Obj>, ghost ls': multiset<Obj>, ghost gs': multiset<Obj>)
      returns (found: bool, ghost dead: seq<Obj>)
      requires Sound(Now(), never, ls, gs)
      requires Surrendered(obj, preferGlobal, ls, gs, ls', gs')
      modifies this`refs, this`arrays, this`heap
      ensures found <==> obj in old(refs)
      ensures Covered(old(refs), obj, preferGlobal, gs) ==>
                Sound(Now(), never, ls', gs') && Freed(old(Now()), Now(), ls' + gs', dead)
      ensures !Covered(old(refs), obj, preferGlobal, gs) ==> Stale(old(Now()), Now(), never, obj, ls', gs', dead)
      decreases |refs|, 0
    {
      ghost var start, covered := Now(), Covered(refs, obj, preferGlobal, gs);
      hide Sound, Freed, Surrendered, SlotRefs, Buried;
      dead := [];
      NothingFreed(start, ls' + gs');
      ReleaseAny(start, never, obj, preferGlobal, ls, gs, ls', gs');
      if Reserved(obj) || obj !in refs {
        return false, dead;
      }
      var c := refs[obj];
      if preferGlobal && c.global > 0 {
        c := c.(global := c.global - 1);
      } else if !preferGlobal && c.local > 0 {
        c := c.(local := c.local - 1);
      }
      if c.local == 0 && c.global == 0 {
        refs := refs - {obj};
        ghost var more;
        more := FreeObject(obj, c.kind, if covered then never else never + {obj}, ls', gs');
        dead := [obj] + more;
        if covered {
          FreedAppend(start, Buried(Untracked(start, obj), obj), Now(), ls' + gs', ls' + gs', [obj], more);
        }
      } else {
        refs := refs[obj := c];
      }
      return true, dead;
    }

    /** Adds one reference if the object is tracked. */
    method AddRef(obj: Obj, asGlobal: bool)
      modifies this`refs
      ensures refs == AddedRef(old(refs), obj, asGlobal)
    {
      if Reserved(obj) {
        return;
      }
      if obj in refs {
        var c := refs[obj];
        if asGlobal {
          c := c.(global := c.global + 1);
        } else {
          c := c.(local := c.local + 1);
        }
        refs := refs[obj := c];
      }
    }

    /**
     Starts tracking an object with one local reference. Without memory for the record, the
     object is destroyed; an object that is tracked already stays as it is, and a placeholder
     is refused.
     */
    method Register(obj: Obj, kind: Kind, recordOk: bool, ghost ls: multiset<Obj>, ghost gs: multiset<Obj>)
      returns (r: Obj, ghost dead: seq<Obj>)
      requires obj in refs || Reserved(obj) || kind == Unknown ==> Sound(Now(), foreign, ls, gs)
      requires !(obj in refs || Reserved(obj) || kind == Unknown) ==>
                 && obj !in foreign && obj in heap && (obj in arrays ==> kind == Array)
                 && Sound(Now(), foreign, ls, gs + SlotRefs(arrays, obj))
      modifies this`refs, this`arrays, this`heap
      ensures obj == 0 || obj == 0x42424242 || obj == 0x69696969 ==> r == 0 && dead == [] && Now() == old(Now())
      ensures Reserved(obj) || kind == Unknown ==> r == 0 && dead == [] && Now() == old(Now())
      ensures !Reserved(obj) && kind != Unknown && obj in old(refs) ==> r == obj && dead == [] && Now() == old(Now())
      ensures !Reserved(obj) && kind != Unknown && obj !in old(refs) ==>
                if recordOk then
                  && r == obj && dead == [] && Sound(Now(), foreign, ls + multiset{obj}, gs)
                  && Now() == old(Now()).(refs := old(refs)[obj := Counts(kind, 1, 0)])
                else
                  && r == 0 && Sound(Now(), foreign, ls, gs)
                  && Freed(Buried(old(Now()), obj), Now(), ls + gs, dead)
    {
      hide Sound, Freed, SlotRefs;
      dead := [];
      if Reserved(obj) || kind == Unknown {
        return 0, dead;
      }
      if obj in refs {
        return obj, dead;
      }
      if recordOk {
        RegisterSound(Now(), foreign, ls, gs, obj, kind);
        refs := refs[obj := Counts(kind, 1, 0)];
        r := obj;
      } else {
        dead := FreeObject(obj, kind, foreign, ls, gs);
        r := 0;
      }
    }

    method NewGlobalRef(obj: Obj) returns (r: Obj)
      requires Valid() && Usable(obj)
      modifies this`refs, this`globals
      ensures Valid() && r == obj
      ensures globals == old(globals) + multiset{obj}
      ensures refs.Keys == old(refs).Keys
    {
      HeldIsTracked(obj);
      AddRefSound(Now(), foreign, locals, globals, obj, true);
      AddRef(obj, true);
      globals := globals + multiset{obj};
      r := obj;
    }

    method NewLocalRef(obj: Obj) returns (r: Obj)
      requires Valid() && (Trackable(obj, foreign) ==> obj in refs)
      modifies this`refs, this`locals
      ensures Valid() && r == obj
      ensures locals == old(locals) + multiset{obj}
      ensures refs.Keys == old(refs).Keys
    {
      AddRefSound(Now(), foreign, locals, globals, obj, false);
      AddRef(obj, false);
      locals := locals + multiset{obj};
      r := obj;
    }

    /** Whatever the client holds and could be tracked, is. */
    lemma HeldIsTracked(obj: Obj)
      requires Valid() && Usable(obj)
      ensures Trackable(obj, foreign) ==> obj in refs
    {
      if Trackable(obj, foreign) {
        assert Balanced(refs, arrays, obj, locals, globals);
      }
    }

    /** The global references of the object are those of slots only. */
    ghost predicate SlotsOnly(obj: Obj)
      reads this
    {
      obj in refs && obj !in globals && HeldBySlot(Now(), obj)
    }

    /** Deleting a global reference keeps the counts exact. */
    ghost predicate Deletable(obj: Obj)
      reads this
    {
      SlotsOnly(obj) ==>
        refs[obj].local == 0 && refs[obj].global == 1 && Orphaned(Now(), obj, locals + globals)
    }

    /**
     Freed are exactly the objects that lose their last holder by cascading, each once.
     Any handle may be passed: without a reference held nothing happens if no slot holds the
     object, and otherwise the counts stay exact only if all its holders die with it.
     */
    method DeleteGlobalRef(obj: Obj) returns (ghost dead: seq<Obj>)
      requires Valid()
      modifies this
      ensures Valid() <==> old(Deletable(obj))
      ensures globals == old(globals) - multiset{obj} && locals == old(locals)
      ensures !old(SlotsOnly(obj)) ==>
                && Freed(old(Now()), Now(), locals + globals, dead)
                && IsComplete(old(refs).Keys, old(arrays), locals + globals, dead)
                && (obj !in old(globals) ==> dead == [] && Now() == old(Now()))
      ensures old(SlotsOnly(obj)) ==> Stale(old(Now()), Now(), foreign, obj, locals, globals, dead)
    {
      ghost var start, gs, gs' := Now(), globals, globals - multiset{obj};
      if obj in refs && obj !in gs {
        UnheldCount(start, foreign, obj, locals, gs);
      }
      ghost var covered := Covered(refs, obj, true, gs);
      assert covered == !SlotsOnly(obj);
      var found;
      found, dead := Release(obj, true, foreign, locals, gs, locals, gs');
      globals := gs';
      hide Sound, Freed, IsComplete, HeldBySlot, Orphaned, Stale, Covered;
      if covered {
        ReleaseSettles(start, Now(), foreign, locals, globals, dead);
        if obj !in gs {
          assert gs' == gs;
          NoNetEffect(start, Now(), foreign, locals, gs, dead);
        }
      } else {
        assert gs' == gs;
        StaleExact(start, Now(), foreign, obj, locals, globals, dead);
      }
    }

    /** Any local deletion is safe: without a local reference left, nothing happens. */
    method DeleteLocalRef(obj: Obj) returns (ghost dead: seq<Obj>)
      requires Valid()
      modifies this
      ensures Valid()
      ensures locals == old(locals) - multiset{obj} && globals == old(globals)
      ensures Freed(old(Now()), Now(), locals + globals, dead)
      ensures IsComplete(old(refs).Keys, old(arrays), locals + globals, dead)
      ensures obj !in old(locals) ==> dead == [] && Now() == old(Now())
    {
      hide Sound, Freed, IsComplete;
      ghost var start, ls, ls' := Now(), locals, locals - multiset{obj};
      var found;
      found, dead := Release(obj, false, foreign, locals, globals, ls', globals);
      locals := ls';
      ReleaseSettles(start, Now(), foreign, locals, globals, dead);
      if obj !in ls {
        assert ls' == ls;
        NoNetEffect(start, Now(), foreign, ls, globals, dead);
      }
    }

    /** The element loop of NewObjectArray: every slot of the untracked block `header` takes a reference to `init`. */
    method FillSlots(length: nat, init: Obj, header: Obj, raw: seq<Obj>)
      requires Sound(Now(), foreign, locals, globals) && header !in refs && |raw| == length
      requires init in refs || !Trackable(init, foreign)
      modifies this`refs, this`arrays, this`heap
      ensures Sound(Now(), foreign, locals, globals + SlotRefs(arrays, header))
      ensures SameShape(State(old(refs), old(arrays)[header := seq(length, _ => init)], old(heap) + {header}), Now())
    {
      hide Sound, SameShape, Filled, SlotRefs;
      ghost var start := Now();
      FilledNone(Now(), foreign, locals, globals, header, raw, init);
      arrays := arrays[header := raw];
      heap := heap + {header};
      var i := 0;
      while i < length
        invariant 0 <= i <= length
        invariant Filled(start, Now(), foreign, locals, globals, header, raw, init, i)
      {
        FilledStep(start, Now(), foreign, locals, globals, header, raw, init, i);
        arrays := arrays[header := Store(arrays[header], i, init)];
        AddRef(init, true);
        i := i + 1;
      }
      assert i == |raw|;
      FilledAll(start, Now(), foreign, locals, globals, header, raw, init);
    }

    /**
     A new object array, every slot holding `init`. `header` is what malloc returned
     for it (0 when memory ran out) and `raw` what the fresh slots happened to contain.
     */
    method NewObjectArray(length: int, init: Obj, header: Obj, raw: seq<Obj>, recordOk: bool) returns (r: Obj)
      requires Valid() && Usable(init)
      requires header == 0 || Fresh(header)
      requires |raw| == if length < 0 then 0 else length
      modifies this
      ensures Valid() && globals == old(globals)
      ensures r == 0 <==> length < 0 || header == 0 || !recordOk
      ensures r == 0 ==> Now() == old(Now()) && locals == old(locals)
      ensures r != 0 ==>
                && r == header && locals == old(locals) + multiset{r}
                && refs.Keys == old(refs).Keys + {r}
                && refs[r].kind == Array
                && arrays == old(arrays)[r := seq(length, _ => init)]
    {
      if length < 0 || header == 0 {
        return 0;
      }
      hide Sound, Freed, SameShape, SlotRefs, Buried;
      ghost var start := Now();
      HeldIsTracked(init);
      FillSlots(length, init, header, raw);
      ghost var filled := Now();
      ghost var dead;
      r, dead := Register(header, Array, recordOk, locals, globals);
      if recordOk {
        ArrayMade(start, filled, foreign, locals, globals, header, seq(length, _ => init));
        locals := locals + multiset{header};
      } else {
        ArrayFailed(start, filled, Now(), foreign, locals, globals, header, seq(length, _ => init), dead);
      }
    }

    /** The element, with a local reference for the client; 0 for a missing array or a bad index. */
    method GetObjectArrayElement(arr: Obj, index: int) returns (r: Obj)
      requires Valid() && (arr == 0 || (arr in refs && arr in arrays))
      modifies this`refs, this`locals
      ensures Valid()
      ensures arr == 0 || index < 0 || index >= |arrays[arr]| ==> r == 0 && Now() == old(Now()) && locals == old(locals)
      ensures arr != 0 && 0 <= index < |arrays[arr]| ==>
                r == arrays[arr][index] && locals == old(locals) + multiset{r}
                && (Trackable(r, foreign) ==> r in refs) && refs.Keys == old(refs).Keys
    {
      if arr == 0 || index >= |arrays[arr]| || index < 0 {
        return 0;
      }
      var o := arrays[arr][index];
      if Trackable(o, foreign) {
        NoDanglingSlot(refs, arrays, foreign, locals, globals, arr, index);
      }
      r := NewLocalRef(o);
    }

    /** Counts the new element and writes it; the reference of the old one is then owed. */
    method StoreElement(arr: Obj, index: nat, value: Obj) returns (previous: Obj)
      requires Valid() && Usable(value) && arr in refs && arr in arrays && index < |arrays[arr]|
      modifies this`refs, this`arrays
      ensures previous == old(arrays)[arr][index]
      ensures SameShape(WithSlot(old(Now()), arr, index, value), Now())
      ensures Sound(Now(), foreign, locals, globals + multiset{previous})
      ensures Surrendered(previous, true, locals, globals + multiset{previous}, locals, globals)
    {
      HeldIsTracked(value);
      SetElementSound(Now(), foreign, locals, globals, arr, index, value);
      hide Sound, SameShape, Surrendered, Settled;
      previous := arrays[arr][index];
      AddRef(value, true);
      arrays := arrays[arr := Store(arrays[arr], index, value)];
    }

    /** Replaces an element: the new one is counted first, the old one released last, cascading. */
    method SetObjectArrayElement(arr: Obj, index: int, value: Obj) returns (ghost dead: seq<Obj>)
      requires Valid() && Usable(value) && (arr == 0 || (arr in refs && arr in arrays))
      modifies this`refs, this`arrays, this`heap
      ensures Valid()
      ensures arr == 0 || index < 0 || index >= |old(arrays)[arr]| ==> dead == [] && Now() == old(Now())
      ensures arr != 0 && 0 <= index < |old(arrays)[arr]| ==>
                var written := WithSlot(old(Now()), arr, index, value);
                && Freed(written, Now(), locals + globals, dead)
                && IsComplete(written.refs.Keys, written.arrays, locals + globals, dead)
    {
      dead := [];
      if arr == 0 || index >= |arrays[arr]| || index < 0 {
        return;
      }
      ghost var written := WithSlot(Now(), arr, index, value);
      assert written.arrays.Keys <= written.refs.Keys;
      var previous := StoreElement(arr, index, value);
      hide Sound, Freed, SameShape, IsComplete, Surrendered, WithSlot;
      ghost var mid, owed := Now(), globals + multiset{previous};
      assert previous in owed;
      var found;
      found, dead := Release(previous, true, foreign, locals, owed, locals, globals);
      FreedCongruent(written, mid, Now(), locals + globals, dead);
      ReleaseSettles(written, Now(), foreign, locals, globals, dead);
    }

    /** Any other tracked object: a string, a direct buffer, a primitive array. */
    method NewObject(obj: Obj, kind: Kind, recordOk: bool) returns (r: Obj)
      requires Valid() && Fresh(obj) && kind != Unknown
      modifies this
      ensures Valid() && globals == old(globals) && arrays == old(arrays)
      ensures r == if recordOk then obj else 0
      ensures recordOk ==> refs == old(refs)[obj := Counts(kind, 1, 0)] && locals == old(locals) + multiset{obj}
      ensures !recordOk ==> Now() == old(Now()) && locals == old(locals)
    {
      hide Counted, Freed;
      ghost var start := Now();
      heap := heap + {obj};
      ghost var dead;
      NoSlots(arrays, obj, globals);
      r, dead := Register(obj, kind, recordOk, locals, globals);
      if recordOk {
        locals := locals + multiset{obj};
      } else {
        assert Buried(start.(heap := start.heap + {obj}), obj) == start;
        NoNetEffect(start, Now(), foreign, locals, globals, dead);
      }
    }
  }
}
