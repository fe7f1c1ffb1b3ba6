/**
 The locked sections on bucket chains do to a map from objects to counts what the
 object-graph operations of JniObjects say.
 */
module TrackerRefines {
  import opened ObjectGraph
  import opened TrackerTable
  import opened TrackerThreads

  predicate Tracks(c: seq<Entry>, o: Obj) {
    Find(c, o) < |c|
  }

  function CountsIn(c: seq<Entry>, o: Obj): Counts
    requires Tracks(c, o)
  {
    CountsOf(c[Find(c, o)])
  }

  /** The chain of `o` says about `o` what the map says. */
  ghost predicate Agrees(c: seq<Entry>, refs: Refs, o: Obj) {
    (o in refs <==> Tracks(c, o)) && (o in refs ==> refs[o] == CountsIn(c, o))
  }

  ghost predicate Represents(t: Table, refs: Refs) {
    TableOk(t) && forall o: Obj :: Agrees(Chain(t, o), refs, o)
  }

  /** Replacing one chain changes what the table says about the objects of that bucket only. */
  lemma ChainRepresents(t: Table, refs: Refs, t': Table, refs': Refs, obj: Obj, c: seq<Entry>)
    requires Represents(t, refs) && TableOk(t') && t'.chains == WithChain(t, obj, c).chains
    requires forall o: Obj :: o != obj ==> (o in refs' <==> o in refs) && (o in refs ==> refs'[o] == refs[o])
    requires forall o: Obj :: Bucket(o) == Bucket(obj) && o != obj && Agrees(Chain(t, o), refs, o) ==>
                                Agrees(c, refs', o)
    requires Agrees(c, refs', obj)
    ensures Represents(t', refs')
  {
    forall o: Obj
      ensures Agrees(Chain(t', o), refs', o)
    {
      assert Agrees(Chain(t, o), refs, o);
    }
  }

  /** Rewriting a record in place leaves the others alone. */
  lemma Rewritten(c: seq<Entry>, k: nat, e: Entry, o: Obj)
    requires k < |c| && e.obj == c[k].obj
    ensures Find(c[k := e], o) == Find(c, o)
  {
    assert forall i :: 0 <= i < |c| ==> c[k := e][i].obj == c[i].obj;
  }

  lemma Prepended(c: seq<Entry>, e: Entry, o: Obj)
    ensures Find([e] + c, o) == if e.obj == o then 0 else 1 + Find(c, o)
  {
    assert ([e] + c)[1..] == c;
  }

  lemma FoundAt(c: seq<Entry>, k: nat, o: Obj)
    requires k < |c| && c[k].obj == o
    ensures Find(c, o) <= k
  {
  }

  /** A record other than `k` is found behind the gap. */
  lemma KeptFound(b: nat, c: seq<Entry>, k: nat, o: Obj)
    requires k < |c| && ChainOk(b, c) && Tracks(c, o) && o != c[k].obj
    ensures var c' := c[..k] + c[k + 1..]; Tracks(c', o) && CountsIn(c', o) == CountsIn(c, o)
  {
    var c' := c[..k] + c[k + 1..];
    var i := Find(c, o);
    var i' := if i < k then i else i - 1;
    assert c'[i'] == c[i];
    FoundAt(c', i', o);
    var j := Find(c', o);
    var j' := if j < k then j else j + 1;
    assert c[j'] == c'[j];
    assert j' == i;
  }

  /** Nothing else is. */
  lemma GapNotFound(b: nat, c: seq<Entry>, k: nat, o: Obj)
    requires k < |c| && ChainOk(b, c) && Tracks(c[..k] + c[k + 1..], o)
    ensures Tracks(c, o) && o != c[k].obj
  {
    var c' := c[..k] + c[k + 1..];
    var j := Find(c', o);
    var j' := if j < k then j else j + 1;
    assert c[j'] == c'[j];
    FoundAt(c, j', o);
  }

  lemma Removed(b: nat, c: seq<Entry>, k: nat, o: Obj)
    requires k < |c| && ChainOk(b, c)
    ensures var c' := c[..k] + c[k + 1..];
            && (Tracks(c', o) <==> Tracks(c, o) && o != c[k].obj)
            && (Tracks(c', o) ==> CountsIn(c', o) == CountsIn(c, o))
  {
    hide Tracks, ChainOk, CountsIn;
    if Tracks(c[..k] + c[k + 1..], o) {
      GapNotFound(b, c, k, o);
    }
    if Tracks(c, o) && o != c[k].obj {
      KeptFound(b, c, k, o);
    }
  }

  lemma AddRefRefines(t: Table, refs: Refs, obj: Obj, asGlobal: bool)
    requires Represents(t, refs)
    ensures Represents(AddRef(t, obj, asGlobal), AddedRef(refs, obj, asGlobal))
  {
    var c := Chain(t, obj);
    var k := Find(c, obj);
    assert Agrees(c, refs, obj);
    AddRefOk(t, obj, asGlobal);
    if !Reserved(obj) && k < |c| {
      var c' := c[k := WithCounts(c[k], WithRef(CountsOf(c[k]), asGlobal))];
      forall o: Obj
        ensures Find(c', o) == Find(c, o)
      {
        Rewritten(c, k, WithCounts(c[k], WithRef(CountsOf(c[k]), asGlobal)), o);
      }
      ChainRepresents(t, refs, AddRef(t, obj, asGlobal), AddedRef(refs, obj, asGlobal), obj, c');
    }
  }

  /** A registration that finds the object unknown both times adds a fresh entry. */
  lemma RegisterRefines(t: Table, refs: Refs, obj: Obj, kind: Kind, id: RecId)
    requires Represents(t, refs) && kind != Unknown && obj !in refs
    ensures Represents(RegisterCommit(t, obj, kind, id), refs[obj := Counts(kind, 1, 0)])
  {
    var c := Chain(t, obj);
    assert Agrees(c, refs, obj);
    CommitOk(t, obj, kind, id);
    var e := Entry(id, obj, kind, 1, 0);
    forall o: Obj
      ensures Find([e] + c, o) == if obj == o then 0 else 1 + Find(c, o)
    {
      Prepended(c, e, o);
    }
    ChainRepresents(t, refs, RegisterCommit(t, obj, kind, id), refs[obj := Counts(kind, 1, 0)], obj, [e] + c);
  }

  /** A registration that finds the object known changes nothing: no entry is of unknown kind. */
  lemma RegisterKnown(t: Table, refs: Refs, obj: Obj, kind: Kind)
    requires Represents(t, refs) && obj in refs
    ensures RegisterBegin(t, obj, kind) == (t, Existing)
  {
    var c := Chain(t, obj);
    var k := Find(c, obj);
    assert Agrees(c, refs, obj) && ChainOk(Bucket(obj), c);
    assert c[k := c[k]] == c;
    assert t.chains[Bucket(obj) := c] == t.chains;
  }

  /** Unlinking a record removes its object. */
  lemma UnlinkRepresents(t: Table, refs: Refs, t': Table, obj: Obj, k: nat)
    requires Represents(t, refs) && TableOk(t') && k < |Chain(t, obj)| && Chain(t, obj)[k].obj == obj
    requires var c := Chain(t, obj); t'.chains == WithChain(t, obj, c[..k] + c[k + 1..]).chains
    ensures Represents(t', refs - {obj})
  {
    var c := Chain(t, obj);
    var c' := c[..k] + c[k + 1..];
    assert ChainOk(Bucket(obj), c);
    hide ChainOk, Find, Bucket, TableOk;
    forall o: Obj
      ensures (Tracks(c', o) <==> Tracks(c, o) && o != obj) && (Tracks(c', o) ==> CountsIn(c', o) == CountsIn(c, o))
    {
      Removed(Bucket(obj), c, k, o);
    }
    hide Tracks, CountsIn;
    ChainRepresents(t, refs, t', refs - {obj}, obj, c');
  }

  /** Rewriting a record changes the counts of its object. */
  lemma RewriteRepresents(t: Table, refs: Refs, t': Table, obj: Obj, e: Entry)
    requires Represents(t, refs) && TableOk(t') && obj in refs && e.obj == obj
    requires var c := Chain(t, obj); var k := Find(c, obj);
             k < |c| && t'.chains == WithChain(t, obj, c[k := e]).chains
    ensures Represents(t', refs[obj := CountsOf(e)])
  {
    var c := Chain(t, obj);
    var k := Find(c, obj);
    var c' := c[k := e];
    forall o: Obj
      ensures Find(c', o) == Find(c, o)
    {
      Rewritten(c, k, e, o);
    }
    hide Find, Bucket, TableOk;
    ChainRepresents(t, refs, t', refs[obj := CountsOf(e)], obj, c');
  }

  /** The record a table has for an object, and what the map says. */
  lemma RecordOf(t: Table, refs: Refs, obj: Obj)
    requires Represents(t, refs)
    ensures var c := Chain(t, obj);
            var k := Find(c, obj);
            && (obj in refs <==> k < |c|)
            && (k < |c| ==> c[k].obj == obj && CountsOf(c[k]) == refs[obj])
  {
    assert Agrees(Chain(t, obj), refs, obj);
  }

  /**
   What a release means for the map: whether the object was found, whether its last
   reference went, and under which kind it is to be destroyed.
   */
  ghost predicate ReleaseMeans(refs: Refs, obj: Obj, preferGlobal: bool, found: bool, gone: bool, kind: Kind,
                               t': Table) {
    && found == (!Reserved(obj) && obj in refs)
    && (!found ==> !gone && Represents(t', refs))
    && (found ==>
          var c := refs[obj];
          && gone == (if preferGlobal then c.local == 0 && c.global <= 1 else c.local <= 1 && c.global == 0)
          && (gone ==> kind == c.kind && Represents(t', refs - {obj}))
          && (!gone && preferGlobal ==>
                Represents(t', refs[obj := Counts(c.kind, c.local, if c.global == 0 then 0 else c.global - 1)]))
          && (!gone && !preferGlobal ==>
                Represents(t', refs[obj := Counts(c.kind, if c.local == 0 then 0 else c.local - 1, c.global)])))
  }

  /** A record that leaves the table reports the object, its registered kind and counters of 0. */
  lemma ReleaseRefines(t: Table, refs: Refs, obj: Obj, preferGlobal: bool)
    requires Represents(t, refs)
    ensures var (t', r) := Release(t, obj, preferGlobal);
            && ReleaseMeans(refs, obj, preferGlobal, r != NotFound, r.Unlinked?,
                            if r.Unlinked? then r.e.kind else Unknown, t')
            && (r.Unlinked? ==> r.e.obj == obj && r.e.local == 0 == r.e.global)
            && (r == NotFound ==> t' == t)
  {
    RecordOf(t, refs, obj);
    ReleaseOk(t, obj, preferGlobal);
    var c := Chain(t, obj);
    var k := Find(c, obj);
    if !Reserved(obj) && k < |c| {
      var (t', r) := Release(t, obj, preferGlobal);
      var e := WithCounts(c[k], Dropped(CountsOf(c[k]), preferGlobal));
      hide Represents, TableOk, Find, Bucket;
      if e.local == 0 && e.global == 0 {
        UnlinkRepresents(t, refs, t', obj, k);
      } else {
        RewriteRepresents(t, refs, t', obj, e);
      }
    }
  }

  /** The two sections of a registration, as the map sees them: a known object stays as it is. */
  lemma RegisterMeans(t: Table, refs: Refs, obj: Obj, kind: Kind, id: RecId)
    requires Represents(t, refs) && kind != Unknown
    ensures RegisterBegin(t, obj, kind).1 == Existing <==> obj in refs
    ensures Represents(RegisterBegin(t, obj, kind).0, refs)
    ensures Represents(RegisterCommit(t, obj, kind, id),
                       if obj in refs then refs else refs[obj := Counts(kind, 1, 0)])
  {
    RecordOf(t, refs, obj);
    BeginOk(t, obj, kind);
    CommitOk(t, obj, kind, id);
    if obj in refs {
      RegisterKnown(t, refs, obj, kind);
      CommitKnown(t, refs, obj, kind, id);
    } else {
      RegisterRefines(t, refs, obj, kind, id);
      SameChains(t, refs, RegisterBegin(t, obj, kind).0);
    }
  }

  lemma SameChains(t: Table, refs: Refs, t': Table)
    requires Represents(t, refs) && TableOk(t') && t'.chains == t.chains
    ensures Represents(t', refs)
  {
    forall o: Obj
      ensures Agrees(Chain(t', o), refs, o)
    {
      assert Agrees(Chain(t, o), refs, o);
    }
  }

  lemma CommitKnown(t: Table, refs: Refs, obj: Obj, kind: Kind, id: RecId)
    requires Represents(t, refs) && obj in refs && TableOk(RegisterCommit(t, obj, kind, id))
    ensures Represents(RegisterCommit(t, obj, kind, id), refs)
  {
    RecordOf(t, refs, obj);
    var c := Chain(t, obj);
    var k := Find(c, obj);
    assert ChainOk(Bucket(obj), c);
    assert c[k := c[k]] == c;
    assert t.chains[Bucket(obj) := c] == t.chains;
    SameChains(t, refs, RegisterCommit(t, obj, kind, id));
  }
}
