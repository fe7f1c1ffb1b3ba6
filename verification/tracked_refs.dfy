/**
 The tracking table in memory: an array of bucket heads, records linked through
 their next fields, and the free list threaded through the same fields. Every
 locked section does to these lists what module TrackerTable says.
 */
module TrackedRefs {
  import opened ObjectGraph
  import opened TrackerTable
  import opened TrackerRefines

  datatype Link = Null | At(id: RecId)

  /** A record in memory; a free record keeps stale fields and uses only `next`. */
  datatype Node = Node(obj: Obj, kind: Kind, local: nat, global: nat, next: Link)

  type Memory = map<RecId, Node>

  function NodeOf(e: Entry, next: Link): Node {
    Node(e.obj, e.kind, e.local, e.global, next)
  }

  /** Following next fields from `head` visits exactly the entries `c`. */
  ghost predicate ListIn(mem: Memory, head: Link, c: seq<Entry>)
    decreases |c|
  {
    if c == [] then head == Null else
    && head == At(c[0].id) && c[0].id in mem
    && mem[c[0].id] == NodeOf(c[0], mem[c[0].id].next)
    && ListIn(mem, mem[c[0].id].next, c[1..])
  }

  /** Following next fields from `head` visits exactly the records `ids`. */
  ghost predicate FreeIn(mem: Memory, head: Link, ids: seq<RecId>)
    decreases |ids|
  {
    if ids == [] then head == Null else
    && head == At(ids[0]) && ids[0] in mem
    && FreeIn(mem, mem[ids[0]].next, ids[1..])
  }

  ghost predicate DistinctIds(c: seq<Entry>) {
    forall i, j :: 0 <= i < j < |c| ==> c[i].id != c[j].id
  }

  /** The bucket a record is chained in, BUCKETS when it is free; private records are nowhere. */
  type Places = map<RecId, nat>

  ghost predicate ChainAt(place: Places, b: nat, c: seq<Entry>) {
    DistinctIds(c) && forall i :: 0 <= i < |c| ==> c[i].id in place && place[c[i].id] == b
  }

  ghost predicate FreeAt(place: Places, ids: seq<RecId>) {
    && (forall i, j :: 0 <= i < j < |ids| ==> ids[i] != ids[j])
    && (forall i :: 0 <= i < |ids| ==> ids[i] in place && place[ids[i]] == BUCKETS)
  }

  lemma {:induction false} ListFrame(mem: Memory, mem': Memory, head: Link, c: seq<Entry>)
    requires ListIn(mem, head, c)
    requires forall i :: 0 <= i < |c| && c[i].id in mem ==> c[i].id in mem' && mem'[c[i].id] == mem[c[i].id]
    ensures ListIn(mem', head, c)
    decreases |c|
  {
    if c != [] {
      ListFrame(mem, mem', mem[c[0].id].next, c[1..]);
    }
  }

  lemma {:induction false} FreeFrame(mem: Memory, mem': Memory, head: Link, ids: seq<RecId>)
    requires FreeIn(mem, head, ids)
    requires forall i :: 0 <= i < |ids| && ids[i] in mem ==> ids[i] in mem' && mem'[ids[i]] == mem[ids[i]]
    ensures FreeIn(mem', head, ids)
    decreases |ids|
  {
    if ids != [] {
      FreeFrame(mem, mem', mem[ids[0]].next, ids[1..]);
    }
  }

  /** Overwriting the fields of the record at position `k`, next kept. */
  lemma {:induction false} ListWrite(mem: Memory, head: Link, c: seq<Entry>, k: nat, e: Entry)
    requires ListIn(mem, head, c) && DistinctIds(c) && k < |c| && e.id == c[k].id
    ensures e.id in mem && ListIn(mem[e.id := NodeOf(e, mem[e.id].next)], head, c[k := e])
    decreases k
  {
    if k == 0 {
      ListFrame(mem, mem[e.id := NodeOf(e, mem[e.id].next)], mem[e.id].next, c[1..]);
      assert c[0 := e][1..] == c[1..];
    } else {
      ListWrite(mem, mem[c[0].id].next, c[1..], k - 1, e);
      assert c[k := e][1..] == c[1..][k - 1 := e];
    }
  }

  /** Bypassing the record at position `k` from its predecessor. */
  lemma {:induction false} ListCut(mem: Memory, head: Link, c: seq<Entry>, k: nat)
    requires ListIn(mem, head, c) && DistinctIds(c) && 0 < k < |c|
    ensures c[k].id in mem && c[k - 1].id in mem
    ensures ListIn(mem[c[k - 1].id := mem[c[k - 1].id].(next := mem[c[k].id].next)], head, c[..k] + c[k + 1..])
    decreases k
  {
    var p := c[k - 1].id;
    var next := mem[c[0].id].next;
    if k == 1 {
      var mem' := mem[p := mem[p].(next := mem[next.id].next)];
      ListFrame(mem, mem', mem[next.id].next, c[2..]);
      assert c[1..][1..] == c[2..];
      assert (c[..1] + c[2..])[1..] == c[2..];
    } else {
      ListCut(mem, next, c[1..], k - 1);
      assert (c[..k] + c[k + 1..])[1..] == c[1..][..k - 1] + c[1..][k..];
    }
  }

  /** The chain of bucket `b` is in memory behind its head, and all of it is accounted to `b`. */
  ghost predicate Stored(mem: Memory, head: Link, place: Places, b: nat, c: seq<Entry>) {
    ListIn(mem, head, c) && ChainAt(place, b, c)
  }

  /** Nothing about the records of bucket `b` differs. */
  ghost predicate Untouched(mem: Memory, place: Places, mem': Memory, place': Places, b: nat) {
    && (forall id :: id in place && place[id] == b ==> id in place' && place'[id] == b)
    && (forall id :: id in place && place[id] == b && id in mem ==> id in mem' && mem'[id] == mem[id])
  }

  lemma StoredFrame(mem: Memory, head: Link, place: Places, b: nat, c: seq<Entry>, mem': Memory, place': Places)
    requires Stored(mem, head, place, b, c) && Untouched(mem, place, mem', place', b)
    ensures Stored(mem', head, place', b, c)
  {
    ListFrame(mem, mem', head, c);
  }

  ghost predicate FreeStored(mem: Memory, head: Link, place: Places, ids: seq<RecId>) {
    FreeIn(mem, head, ids) && FreeAt(place, ids)
  }

  lemma FreeStoredFrame(mem: Memory, head: Link, place: Places, ids: seq<RecId>, mem': Memory, place': Places)
    requires FreeStored(mem, head, place, ids) && Untouched(mem, place, mem', place', BUCKETS)
    ensures FreeStored(mem', head, place', ids)
  {
    FreeFrame(mem, mem', head, ids);
  }

  lemma StoredWrite(mem: Memory, head: Link, place: Places, b: nat, c: seq<Entry>, k: nat, e: Entry)
    requires Stored(mem, head, place, b, c) && k < |c| && e.id == c[k].id
    ensures e.id in mem && e.id in place && place[e.id] == b
    ensures Stored(mem[e.id := NodeOf(e, mem[e.id].next)], head, place, b, c[k := e])
  {
    ListWrite(mem, head, c, k, e);
  }

  /** A private record becomes the first of a chain. */
  lemma StoredPush(mem: Memory, head: Link, place: Places, b: nat, c: seq<Entry>, e: Entry)
    requires Stored(mem, head, place, b, c) && e.id !in place
    ensures Stored(mem[e.id := NodeOf(e, head)], At(e.id), place[e.id := b], b, [e] + c)
  {
    ListFrame(mem, mem[e.id := NodeOf(e, head)], head, c);
    assert ([e] + c)[1..] == c;
  }

  /** The record at position `k` leaves its chain, from the head or from its predecessor. */
  lemma StoredCut(mem: Memory, head: Link, place: Places, b: nat, c: seq<Entry>, k: nat)
    requires Stored(mem, head, place, b, c) && k < |c|
    ensures var id := c[k].id;
            var c' := c[..k] + c[k + 1..];
            && id in mem && id in place && place[id] == b
            && (k == 0 ==> Stored(mem, mem[id].next, place - {id}, b, c'))
            && (k > 0 ==> var p := c[k - 1].id;
                          && p in mem && p in place && place[p] == b && p != id
                          && Stored(mem[p := mem[p].(next := mem[id].next)], head, place - {id}, b, c'))
  {
    var c' := c[..k] + c[k + 1..];
    ListMember(mem, head, c, k);
    assert ChainAt(place - {c[k].id}, b, c');
    if k == 0 {
      assert c' == c[1..];
    } else {
      ListCut(mem, head, c, k);
    }
  }

  lemma {:induction false} ListMember(mem: Memory, head: Link, c: seq<Entry>, k: nat)
    requires ListIn(mem, head, c) && k < |c|
    ensures c[k].id in mem
    decreases k
  {
    if k > 0 {
      ListMember(mem, mem[c[0].id].next, c[1..], k - 1);
    }
  }

  class RefTable {
    /** Every record: the pool, and what malloc handed out. */
    var mem: Memory
    const heads: array<Link>
    var free: Link
    var poolUsed: nat
    var live: nat
    var created: nat
    var freed: nat

    ghost var table: Table
    ghost var place: Places

    ghost predicate Valid()
      reads this, heads
    {
      && heads.Length == BUCKETS && Shaped(table)
      && (forall b :: 0 <= b < BUCKETS ==> Stored(mem, heads[b], place, b, table.chains[b]))
      && FreeStored(mem, free, place, table.free)
      && poolUsed <= POOL_SIZE
      && (forall i :: 0 <= i < POOL_SIZE ==> Pool(i) in mem)
      && (forall i :: poolUsed <= i ==> Pool(i) !in place)
      && table.poolUsed == poolUsed && table.live == live && table.created == created && table.freed == freed
    }

    constructor ()
      ensures Valid()
      ensures table == Table(seq(BUCKETS, _ => []), [], 0, 0, 0, 0)
    {
      mem := map i: nat | i < POOL_SIZE :: Pool(i) := Node(0, Unknown, 0, 0, Null);
      heads := new Link[BUCKETS](_ => Null);
      free, poolUsed, live, created, freed := Null, 0, 0, 0, 0;
      table := Table(seq(BUCKETS, _ => []), [], 0, 0, 0, 0);
      place := map[];
    }

    method TakeLocked() returns (e: Link)
      requires Valid()
      modifies this
      ensures Valid() && mem == old(mem)
      ensures var (t, taken) := Take(old(table));
              table == t && (e == Null <==> taken == Exhausted) && (e != Null ==> taken == Record(e.id))
      ensures e != Null ==> e.id in mem && e.id !in place
    {
      if free != Null {
        e := free;
        free := mem[e.id].next;
        table := table.(free := table.free[1..]);
        place := place - {e.id};
        forall b | 0 <= b < BUCKETS
          ensures Stored(mem, heads[b], place, b, table.chains[b])
        {
          StoredFrame(mem, heads[b], old(place), b, table.chains[b], mem, place);
        }
      } else if poolUsed < POOL_SIZE {
        e := At(Pool(poolUsed));
        poolUsed := poolUsed + 1;
        table := table.(poolUsed := poolUsed);
      } else {
        e := Null;
      }
    }

    /** Finds the record of an object in its chain. */
    method FindLocked(obj: Obj) returns (e: Link)
      requires Valid()
      ensures var c := Chain(table, obj);
              var k := Find(c, obj);
              if k < |c| then e == At(c[k].id) && e.id in mem && mem[e.id] == NodeOf(c[k], mem[e.id].next)
              else e == Null
    {
      var b := Bucket(obj);
      ghost var rest := table.chains[b];
      e := heads[b];
      while e != Null
        invariant ListIn(mem, e, rest)
        invariant |rest| <= |table.chains[b]| && rest == table.chains[b][|table.chains[b]| - |rest|..]
        invariant Find(table.chains[b], obj) == |table.chains[b]| - |rest| + Find(rest, obj)
        decreases |rest|
      {
        if mem[e.id].obj == obj {
          return;
        }
        e := mem[e.id].next;
        rest := rest[1..];
      }
    }

    /** Finds the record of an object and the link that leads to it: Null stands for the bucket head. */
    method WalkTo(obj: Obj) returns (prev: Link, e: Link)
      requires Valid()
      ensures var c := Chain(table, obj);
              var k := Find(c, obj);
              if k < |c| then
                && e == At(c[k].id) && e.id in mem && mem[e.id] == NodeOf(c[k], mem[e.id].next)
                && prev == if k == 0 then Null else At(c[k - 1].id)
              else e == Null
    {
      var b := Bucket(obj);
      ghost var c := table.chains[b];
      ghost var i := 0;
      prev, e := Null, heads[b];
      while e != Null
        invariant 0 <= i <= |c| && ListIn(mem, e, c[i..])
        invariant prev == if i == 0 then Null else At(c[i - 1].id)
        invariant Find(c, obj) == i + Find(c[i..], obj)
        decreases |c| - i
      {
        if mem[e.id].obj == obj {
          return;
        }
        prev := e;
        e := mem[e.id].next;
        assert c[i..][1..] == c[i + 1..];
        i := i + 1;
      }
    }

    /** Takes the record of `obj` out of its chain and counts it as freed; it becomes private. */
    method UnlinkLocked(obj: Obj, prev: Link, id: RecId)
      requires Valid() && id in mem
      requires var c := Chain(table, obj);
               var k := Find(c, obj);
               k < |c| && id == c[k].id && prev == if k == 0 then Null else At(c[k - 1].id)
      modifies this, heads
      ensures Valid()
      ensures var c, k := Chain(old(table), obj), Find(Chain(old(table), obj), obj);
              table == WithChain(old(table), obj, c[..k] + c[k + 1..])
                       .(live := Dec(old(table).live), freed := Inc(old(table).freed))
      ensures id in mem && id !in place && (id.Pool? ==> id.i < poolUsed)
    {
      var b0 := Bucket(obj);
      ghost var c, k := Chain(table, obj), Find(Chain(table, obj), obj);
      hide Bucket, Find, Stored, FreeStored, Inc, Dec;
      StoredCut(mem, heads[b0], place, b0, c, k);
      if prev == Null {
        heads[b0] := mem[id].next;
      } else {
        mem := mem[prev.id := mem[prev.id].(next := mem[id].next)];
      }
      place := place - {id};
      live, freed := Dec(live), Inc(freed);
      table := WithChain(table, obj, c[..k] + c[k + 1..]).(live := live, freed := freed);
      hide Chain;
      forall b | 0 <= b < BUCKETS
        ensures Stored(mem, heads[b], place, b, table.chains[b])
      {
        if b != b0 {
          StoredFrame(old(mem), heads[b], old(place), b, table.chains[b], mem, place);
        }
      }
      FreeStoredFrame(old(mem), free, old(place), table.free, mem, place);
    }

    /** Gives a private record back to the pool; a malloc'd one is left to the caller. */
    method ReturnLocked(e: RecId) returns (pooled: bool)
      requires Valid() && e in mem && e !in place && (e.Pool? ==> e.i < poolUsed)
      modifies this
      ensures Valid() && pooled == e.Pool?
      ensures table == Return(old(table), e)
      ensures place == if pooled then old(place)[e := BUCKETS] else old(place)
    {
      pooled := e.Pool?;
      if !pooled {
        return;
      }
      mem := mem[e := mem[e].(next := free)];
      free := At(e);
      table := Return(table, e);
      place := place[e := BUCKETS];
      forall b | 0 <= b < BUCKETS
        ensures Stored(mem, heads[b], place, b, table.chains[b])
      {
        StoredFrame(old(mem), heads[b], old(place), b, table.chains[b], mem, place);
      }
      FreeStoredFrame(old(mem), old(free), old(place), old(table).free, mem, old(place));
      assert table.free[1..] == old(table).free;
    }

    /** Overwrites the counts or the kind of the record of `obj` at position `k` of its chain. */
    method Rewrite(obj: Obj, ghost k: nat, id: RecId, node: Node)
      requires Valid() && k < |Chain(table, obj)| && id == Chain(table, obj)[k].id
      requires id in mem && node.obj == obj == Chain(table, obj)[k].obj && node.next == mem[id].next
      modifies this
      ensures Valid()
      ensures table == WithChain(old(table), obj,
                Chain(old(table), obj)[k := Entry(id, obj, node.kind, node.local, node.global)])
      ensures place == old(place) && mem.Keys == old(mem).Keys && poolUsed == old(poolUsed)
    {
      ghost var b0, c, e := Bucket(obj), Chain(table, obj), Entry(id, obj, node.kind, node.local, node.global);
      StoredWrite(mem, heads[b0], place, b0, c, k, e);
      mem := mem[id := node];
      table := WithChain(table, obj, c[k := e]);
      forall b | 0 <= b < BUCKETS
        ensures Stored(mem, heads[b], place, b, table.chains[b])
      {
        if b != b0 {
          StoredFrame(old(mem), heads[b], place, b, table.chains[b], mem, place);
        }
      }
      FreeStoredFrame(old(mem), free, place, table.free, mem, place);
    }

    /** The locked section of NewLocalRef and NewGlobalRef. */
    method AddRefLocked(obj: Obj, asGlobal: bool)
      requires Valid()
      modifies this
      ensures Valid()
      ensures table == AddRef(old(table), obj, asGlobal)
      ensures forall refs: Refs :: Represents(old(table), refs) ==> Represents(table, AddedRef(refs, obj, asGlobal))
      ensures place == old(place)
    {
      forall refs: Refs | Represents(table, refs)
        ensures Represents(AddRef(table, obj, asGlobal), AddedRef(refs, obj, asGlobal))
      {
        AddRefRefines(table, refs, obj, asGlobal);
      }
      hide Represents;
      if Reserved(obj) {
        return;
      }
      var e := FindLocked(obj);
      if e != Null {
        var n := mem[e.id];
        if asGlobal {
          n := n.(global := n.global + 1);
        } else {
          n := n.(local := n.local + 1);
        }
        Rewrite(obj, Find(Chain(table, obj), obj), e.id, n);
      }
    }

    /** First locked section of a registration. */
    method RegisterBeginLocked(obj: Obj, kind: Kind) returns (known: bool, e: Link)
      requires Valid()
      modifies this
      ensures Valid()
      ensures var (t, taken) := RegisterBegin(old(table), obj, kind);
              && table == t && known == (taken == Existing)
              && (!known ==> (e == Null <==> taken == Exhausted) && (e != Null ==> taken == Record(e.id)))
      ensures !known && e != Null ==> e.id in mem && e.id !in place
      ensures forall refs: Refs :: kind != Unknown && Represents(old(table), refs) ==>
                Represents(table, refs) && (known <==> obj in refs)
    {
      forall refs: Refs | kind != Unknown && Represents(table, refs)
        ensures Represents(RegisterBegin(table, obj, kind).0, refs)
        ensures RegisterBegin(table, obj, kind).1 == Existing <==> obj in refs
      {
        RegisterMeans(table, refs, obj, kind, Pool(0));
      }
      hide Represents;
      e := FindLocked(obj);
      known := e != Null;
      if known {
        var n := mem[e.id];
        if n.kind == Unknown {
          n := n.(kind := kind);
        }
        Rewrite(obj, Find(Chain(table, obj), obj), e.id, n);
      } else {
        e := TakeLocked();
      }
    }

    /** Second locked section: links the private record `e`, unless another thread was faster. */
    method RegisterCommitLocked(obj: Obj, kind: Kind, e: RecId) returns (toFree: bool)
      requires Valid() && e in mem && e !in place && (e.Pool? ==> e.i < poolUsed)
      modifies this, heads
      ensures Valid()
      ensures table == RegisterCommit(old(table), obj, kind, e)
      ensures toFree == (Find(Chain(old(table), obj), obj) < |Chain(old(table), obj)| && e.Block?)
      ensures forall refs: Refs :: kind != Unknown && Represents(old(table), refs) ==>
                && Represents(table, if obj in refs then refs else refs[obj := Counts(kind, 1, 0)])
                && toFree == (obj in refs && e.Block?)
    {
      forall refs: Refs | kind != Unknown && Represents(table, refs)
        ensures Represents(RegisterCommit(table, obj, kind, e),
                           if obj in refs then refs else refs[obj := Counts(kind, 1, 0)])
        ensures obj in refs <==> Find(Chain(table, obj), obj) < |Chain(table, obj)|
      {
        RecordOf(table, refs, obj);
        RegisterMeans(table, refs, obj, kind, e);
      }
      hide Represents;
      var x := FindLocked(obj);
      if x != Null {
        var n := mem[x.id];
        if n.kind == Unknown {
          n := n.(kind := kind);
        }
        Rewrite(obj, Find(Chain(table, obj), obj), x.id, n);
        var pooled := ReturnLocked(e);
        return !pooled;
      }
      LinkLocked(obj, kind, e);
      toFree := false;
    }

    /** Puts the private record `e` in front of the chain of `obj`. */
    method LinkLocked(obj: Obj, kind: Kind, e: RecId)
      requires Valid() && e in mem && e !in place && (e.Pool? ==> e.i < poolUsed)
      requires Find(Chain(table, obj), obj) == |Chain(table, obj)|
      modifies this, heads
      ensures Valid()
      ensures table == RegisterCommit(old(table), obj, kind, e)
    {
      var b0 := Bucket(obj);
      ghost var c, entry := Chain(table, obj), Entry(e, obj, kind, 1, 0);
      hide Bucket, Find, Stored, FreeStored, Inc, Dec;
      StoredPush(mem, heads[b0], place, b0, c, entry);
      mem := mem[e := Node(obj, kind, 1, 0, heads[b0])];
      heads[b0] := At(e);
      live, created := Inc(live), Inc(created);
      place := place[e := b0];
      table := WithChain(table, obj, [entry] + c).(live := live, created := created);
      forall b | 0 <= b < BUCKETS
        ensures Stored(mem, heads[b], place, b, table.chains[b])
      {
        if b != b0 {
          StoredFrame(old(mem), heads[b], old(place), b, table.chains[b], mem, place);
        }
      }
      FreeStoredFrame(old(mem), free, old(place), table.free, mem, place);
    }

    /** Stores the counts of a record, or unlinks it when both are 0. */
    method StoreCounts(obj: Obj, prev: Link, id: RecId, n: Node) returns (gone: bool, released: Link)
      requires Valid() && id in mem
      requires var c := Chain(table, obj);
               var k := Find(c, obj);
               && k < |c| && id == c[k].id && prev == (if k == 0 then Null else At(c[k - 1].id))
               && n.obj == obj && n.next == mem[id].next && n.kind == c[k].kind
      modifies this, heads
      ensures Valid()
      ensures gone == (n.local == 0 && n.global == 0)
      ensures released == if gone && !id.Pool? then At(id) else Null
      ensures var c := Chain(old(table), obj);
              var k := Find(c, obj);
              table == if gone then
                         Return(WithChain(old(table), obj, c[..k] + c[k + 1..]), id)
                           .(live := Dec(old(table).live), freed := Inc(old(table).freed))
                       else WithChain(old(table), obj, c[k := Entry(id, obj, n.kind, n.local, n.global)])
    {
      ghost var k := Find(Chain(table, obj), obj);
      hide Bucket, Find, Stored, FreeStored, Inc, Dec;
      gone := n.local == 0 && n.global == 0;
      released := Null;
      if gone {
        UnlinkLocked(obj, prev, id);
        var pooled := ReturnLocked(id);
        released := if pooled then Null else At(id);
      } else {
        Rewrite(obj, k, id, n);
      }
    }

    /**
     The locked section of a release: walks the chain with a pointer to the link
     that leads to the current record, and unlinks the record when its last reference
     goes. `released` is what the caller must still free, `gone` the object to destroy.
     */
    method ReleaseLocked(obj: Obj, preferGlobal: bool)
      returns (found: bool, gone: bool, kind: Kind, released: Link)
      requires Valid()
      modifies this, heads
      ensures Valid()
      ensures var (t, r) := Release(old(table), obj, preferGlobal);
              && table == t
              && found == (r != NotFound)
              && gone == r.Unlinked?
              && (gone ==> kind == r.e.kind && released == if r.e.id.Pool? then Null else At(r.e.id))
              && (!gone ==> released == Null)
      ensures forall refs: Refs :: Represents(old(table), refs) ==>
                ReleaseMeans(refs, obj, preferGlobal, found, gone, kind, table)
    {
      forall refs: Refs | Represents(table, refs)
        ensures var (t, r) := Release(table, obj, preferGlobal);
                ReleaseMeans(refs, obj, preferGlobal, r != NotFound, r.Unlinked?,
                             if r.Unlinked? then r.e.kind else Unknown, t)
      {
        ReleaseRefines(table, refs, obj, preferGlobal);
      }
      hide ReleaseMeans, Represents;
      found, gone, kind, released := false, false, Unknown, Null;
      if Reserved(obj) {
        return;
      }
      var prev, e := WalkTo(obj);
      if e == Null {
        return;
      }
      found := true;
      hide Bucket, Find, Stored, FreeStored, Inc, Dec;
      var n := mem[e.id];
      if preferGlobal && n.global > 0 {
        n := n.(global := n.global - 1);
      } else if !preferGlobal && n.local > 0 {
        n := n.(local := n.local - 1);
      }
      gone, released := StoreCounts(obj, prev, e.id, n);
      if gone {
        kind := n.kind;
      }
    }
  }
}
