/**
 The tracking table as values: bucket chains of records, the free list of the
 record pool, and what each section under the lock does to them.
 */
module TrackerTable {
  import opened ObjectGraph

  const BUCKETS := 1024
  const POOL_SIZE := 128
  const WORD := 0x1_0000_0000

  /** A record is one of the pool or a block from malloc. */
  datatype RecId = Pool(i: nat) | Block(n: nat)

  datatype Entry = Entry(id: RecId, obj: Obj, kind: Kind, local: nat, global: nat)

  datatype Table = Table(chains: seq<seq<Entry>>, free: seq<RecId>, poolUsed: nat,
                         live: nat, created: nat, freed: nat)

  /** Folds the address bits above the alignment: (k ^ k >> 11) & 1023 with k = obj >> 3. */
  function Bucket(obj: Obj): (b: nat)
    ensures b < BUCKETS
  {
    var low := (obj / 8) % 1024;
    var high := (obj / 8 / 2048) % 1024;
    ((low as bv10) ^ (high as bv10)) as int
  }

  function Inc(n: nat): nat { (n + 1) % WORD }

  function Dec(n: nat): nat { (n + WORD - 1) % WORD }

  /** Position of the record of `obj` in a chain, or the chain's length. */
  function Find(chain: seq<Entry>, obj: Obj): (k: nat)
    ensures k <= |chain|
    ensures k < |chain| ==> chain[k].obj == obj
    ensures forall i :: 0 <= i < k ==> chain[i].obj != obj
  {
    if chain == [] || chain[0].obj == obj then 0 else 1 + Find(chain[1..], obj)
  }

  datatype Taken = Existing | Record(id: RecId) | Exhausted

  /** tracked_entry_take_locked */
  function Take(t: Table): (Table, Taken) {
    if t.free != [] then (t.(free := t.free[1..]), Record(t.free[0]))
    else if t.poolUsed < POOL_SIZE then (t.(poolUsed := t.poolUsed + 1), Record(Pool(t.poolUsed)))
    else (t, Exhausted)
  }

  /** tracked_entry_return_locked: pool records go back, others are left to the caller. */
  function Return(t: Table, id: RecId): Table {
    if id.Pool? then t.(free := [id] + t.free) else t
  }

  function Adopt(e: Entry, kind: Kind): Entry {
    if e.kind == Unknown then e.(kind := kind) else e
  }

  predicate Shaped(t: Table) {
    |t.chains| == BUCKETS
  }

  function Chain(t: Table, obj: Obj): seq<Entry>
    requires Shaped(t)
  {
    t.chains[Bucket(obj)]
  }

  function WithChain(t: Table, obj: Obj, chain: seq<Entry>): Table
    requires Shaped(t)
  {
    t.(chains := t.chains[Bucket(obj) := chain])
  }

  /** First locked section of a registration. */
  function RegisterBegin(t: Table, obj: Obj, kind: Kind): (Table, Taken)
    requires Shaped(t)
  {
    var c := Chain(t, obj);
    var k := Find(c, obj);
    if k < |c| then (WithChain(t, obj, c[k := Adopt(c[k], kind)]), Existing)
    else Take(t)
  }

  /** Second locked section: another thread may have registered the object meanwhile. */
  function RegisterCommit(t: Table, obj: Obj, kind: Kind, id: RecId): Table
    requires Shaped(t)
  {
    var c := Chain(t, obj);
    var k := Find(c, obj);
    if k < |c| then Return(WithChain(t, obj, c[k := Adopt(c[k], kind)]), id)
    else WithChain(t, obj, [Entry(id, obj, kind, 1, 0)] + c).(live := Inc(t.live), created := Inc(t.created))
  }

  function CountsOf(e: Entry): Counts {
    Counts(e.kind, e.local, e.global)
  }

  /** A record with other counters. */
  function WithCounts(e: Entry, c: Counts): Entry {
    e.(kind := c.kind, local := c.local, global := c.global)
  }

  function AddRef(t: Table, obj: Obj, asGlobal: bool): Table
    requires Shaped(t)
  {
    var c := Chain(t, obj);
    var k := Find(c, obj);
    if Reserved(obj) || k == |c| then t
    else WithChain(t, obj, c[k := WithCounts(c[k], WithRef(CountsOf(c[k]), asGlobal))])
  }

  datatype Released = NotFound | Kept | Unlinked(e: Entry)

  /** The locked section of a release. */
  function Release(t: Table, obj: Obj, preferGlobal: bool): (Table, Released)
    requires Shaped(t)
  {
    var c := Chain(t, obj);
    var k := Find(c, obj);
    if Reserved(obj) || k == |c| then (t, NotFound)
    else
      var e := WithCounts(c[k], Dropped(CountsOf(c[k]), preferGlobal));
      if e.local == 0 && e.global == 0 then
        (Return(WithChain(t, obj, c[..k] + c[k + 1..]), e.id).(live := Dec(t.live), freed := Inc(t.freed)), Unlinked(e))
      else
        (WithChain(t, obj, c[k := e]), Kept)
  }
}
