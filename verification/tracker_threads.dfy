/**
 The tracking table under many threads. Each locked section is one atomic step;
 between its two sections a registration owns a private record, and a release
 owns the malloc'd record it has unlinked until it frees it.
 */
module TrackerThreads {
  import opened ObjectGraph
  import opened TrackerTable

  datatype Registering =
    | Idle
    | NeedRecord(obj: Obj, kind: Kind)
    | HasRecord(obj: Obj, kind: Kind, id: RecId)

  /** `doomed` are malloc'd records this thread still has to free, innermost last. */
  datatype Thread = Thread(reg: Registering, doomed: seq<RecId>)

  /** `blocks` are the records malloc has handed out. */
  datatype System = System(table: Table, threads: seq<Thread>, blocks: set<nat>)

  datatype Action =
    | Begin(obj: Obj, kind: Kind)
    | Malloc(n: nat)
    | MallocFails
    | Commit
    | FreeRecord
    | Add(obj: Obj, asGlobal: bool)
    | Drop(obj: Obj, preferGlobal: bool)

  predicate Init(s: System) {
    && s.table == Table(seq(BUCKETS, _ => []), [], 0, 0, 0, 0)
    && (forall i :: 0 <= i < |s.threads| ==> s.threads[i] == Thread(Idle, []))
    && s.blocks == {}
  }

  /** A malloc'd record is freed by the thread that unlinked it; a pool record is already back. */
  function Doom(th: Thread, id: RecId): Thread {
    if id.Pool? then th else th.(doomed := th.doomed + [id])
  }

  /** What thread `t` may do next, as a partial function: None when the action is not enabled. */
  datatype Outcome = Disabled | Next(s: System)

  function Step(s: System, t: nat, a: Action): Outcome
    requires t < |s.threads| && Shaped(s.table)
  {
    var th := s.threads[t];
    match a
    case Begin(obj, kind) =>
      if th.reg != Idle || Reserved(obj) || kind == Unknown then Disabled else
      var (table', taken) := RegisterBegin(s.table, obj, kind);
      var reg := match taken
        case Existing => Idle
        case Record(id) => HasRecord(obj, kind, id)
        case Exhausted => NeedRecord(obj, kind);
      Next(s.(table := table', threads := s.threads[t := th.(reg := reg)]))
    case Malloc(n) =>
      if !th.reg.NeedRecord? || n in s.blocks then Disabled else
      Next(s.(threads := s.threads[t := th.(reg := HasRecord(th.reg.obj, th.reg.kind, Block(n)))],
              blocks := s.blocks + {n}))
    case MallocFails =>
      if !th.reg.NeedRecord? then Disabled else
      Next(s.(threads := s.threads[t := th.(reg := Idle)]))
    case Commit =>
      if !th.reg.HasRecord? then Disabled else
      var HasRecord(obj, kind, id) := th.reg;
      var known := Find(Chain(s.table, obj), obj) < |Chain(s.table, obj)|;
      var th' := th.(reg := Idle);
      Next(s.(table := RegisterCommit(s.table, obj, kind, id),
              threads := s.threads[t := if known then Doom(th', id) else th']))
    case FreeRecord =>
      if th.doomed == [] then Disabled else
      var id := th.doomed[|th.doomed| - 1];
      Next(s.(threads := s.threads[t := th.(doomed := th.doomed[..|th.doomed| - 1])],
              blocks := if id.Block? then s.blocks - {id.n} else s.blocks))
    case Add(obj, asGlobal) =>
      Next(s.(table := AddRef(s.table, obj, asGlobal)))
    case Drop(obj, preferGlobal) =>
      var (table', released) := Release(s.table, obj, preferGlobal);
      Next(s.(table := table',
              threads := s.threads[t := if released.Unlinked? then Doom(th, released.e.id) else th]))
  }

  // ----- where each record is

  function CountFree(ids: seq<RecId>, id: RecId): nat {
    if ids == [] then 0 else (if ids[0] == id then 1 else 0) + CountFree(ids[1..], id)
  }

  function CountChain(c: seq<Entry>, id: RecId): nat {
    if c == [] then 0 else (if c[0].id == id then 1 else 0) + CountChain(c[1..], id)
  }

  function CountChains(cs: seq<seq<Entry>>, id: RecId): nat {
    if cs == [] then 0 else CountChain(cs[0], id) + CountChains(cs[1..], id)
  }

  function CountHeld(th: Thread, id: RecId): nat {
    CountFree(th.doomed, id) + if th.reg.HasRecord? && th.reg.id == id then 1 else 0
  }

  function CountPrivate(ths: seq<Thread>, id: RecId): nat {
    if ths == [] then 0 else CountHeld(ths[0], id) + CountPrivate(ths[1..], id)
  }

  /** In how many places a record is: free list, bucket chains, private to a thread. */
  function Places(s: System, id: RecId): nat {
    CountFree(s.table.free, id) + CountChains(s.table.chains, id) + CountPrivate(s.threads, id)
  }

  /** Records that exist: pool records taken at least once, and malloc'd records not yet freed. */
  predicate Exists(s: System, id: RecId) {
    match id
    case Pool(i) => i < s.table.poolUsed
    case Block(n) => n in s.blocks
  }

  function Length(cs: seq<seq<Entry>>): nat {
    if cs == [] then 0 else |cs[0]| + Length(cs[1..])
  }

  /** A chain of bucket `b`: its own objects, no duplicates, nobody without a reference. */
  predicate ChainOk(b: nat, c: seq<Entry>) {
    && (forall i :: 0 <= i < |c| ==> Bucket(c[i].obj) == b && c[i].kind != Unknown && c[i].local + c[i].global > 0)
    && (forall i, j :: 0 <= i < j < |c| ==> c[i].obj != c[j].obj)
  }

  /** Records in the table's own places: the free list and the chains. */
  function TableCount(t: Table, id: RecId): nat {
    CountFree(t.free, id) + CountChains(t.chains, id)
  }

  ghost predicate TableOk(t: Table) {
    && Shaped(t)
    && (forall b :: 0 <= b < BUCKETS ==> ChainOk(b, t.chains[b]))
    && (forall i :: 0 <= i < |t.free| ==> t.free[i].Pool?)
    && t.poolUsed <= POOL_SIZE
    && t.live == Length(t.chains) % WORD
    && (t.live + t.freed) % WORD == t.created % WORD
  }

  ghost predicate ThreadOk(th: Thread) {
    && (forall k :: 0 <= k < |th.doomed| ==> th.doomed[k].Block?)
    && (th.reg != Idle ==> th.reg.kind != Unknown && !Reserved(th.reg.obj))
  }

  /** Every record that exists is in exactly one place, and the others are nowhere. */
  ghost predicate Inv(s: System) {
    && TableOk(s.table)
    && (forall i :: 0 <= i < |s.threads| ==> ThreadOk(s.threads[i]))
    && (forall id: RecId :: Places(s, id) == if Exists(s, id) then 1 else 0)
  }

  lemma {:induction false} ChainsWrite(cs: seq<seq<Entry>>, b: nat, c: seq<Entry>, id: RecId)
    requires b < |cs|
    ensures CountChains(cs[b := c], id) + CountChain(cs[b], id) == CountChains(cs, id) + CountChain(c, id)
  {
    if b == 0 {
      assert cs[b := c][1..] == cs[1..];
    } else {
      ChainsWrite(cs[1..], b - 1, c, id);
      assert cs[b := c][1..] == cs[1..][b - 1 := c];
    }
  }

  lemma {:induction false} LengthWrite(cs: seq<seq<Entry>>, b: nat, c: seq<Entry>)
    requires b < |cs|
    ensures Length(cs[b := c]) + |cs[b]| == Length(cs) + |c|
  {
    if b == 0 {
      assert cs[b := c][1..] == cs[1..];
    } else {
      LengthWrite(cs[1..], b - 1, c);
      assert cs[b := c][1..] == cs[1..][b - 1 := c];
    }
  }

  lemma {:induction false} PrivateWrite(ths: seq<Thread>, t: nat, th: Thread, id: RecId)
    requires t < |ths|
    ensures CountPrivate(ths[t := th], id) + CountHeld(ths[t], id) == CountPrivate(ths, id) + CountHeld(th, id)
  {
    if t == 0 {
      assert ths[t := th][1..] == ths[1..];
    } else {
      PrivateWrite(ths[1..], t - 1, th, id);
      assert ths[t := th][1..] == ths[1..][t - 1 := th];
    }
  }

  lemma {:induction false} ChainCut(c: seq<Entry>, k: nat, id: RecId)
    requires k < |c|
    ensures CountChain(c, id) == CountChain(c[..k] + c[k + 1..], id) + if c[k].id == id then 1 else 0
  {
    if k == 0 {
      assert c[..k] + c[k + 1..] == c[1..];
    } else {
      ChainCut(c[1..], k - 1, id);
      assert (c[..k] + c[k + 1..])[1..] == c[1..][..k - 1] + c[1..][k..];
    }
  }

  lemma {:induction false} ChainWrite(c: seq<Entry>, k: nat, e: Entry, id: RecId)
    requires k < |c| && e.id == c[k].id
    ensures CountChain(c[k := e], id) == CountChain(c, id)
  {
    if k == 0 {
      assert c[k := e][1..] == c[1..];
    } else {
      ChainWrite(c[1..], k - 1, e, id);
      assert c[k := e][1..] == c[1..][k - 1 := e];
    }
  }

  lemma {:induction false} FreeAppend(ids: seq<RecId>, last: RecId, id: RecId)
    ensures CountFree(ids + [last], id) == CountFree(ids, id) + if last == id then 1 else 0
  {
    if ids != [] {
      FreeAppend(ids[1..], last, id);
      assert (ids + [last])[1..] == ids[1..] + [last];
    }
  }

  lemma {:induction false} Nowhere(ths: seq<Thread>, cs: seq<seq<Entry>>, id: RecId)
    requires forall i :: 0 <= i < |ths| ==> ths[i] == Thread(Idle, [])
    requires forall b :: 0 <= b < |cs| ==> cs[b] == []
    ensures CountPrivate(ths, id) == 0 && CountChains(cs, id) == 0 && Length(cs) == 0
  {
    if ths != [] {
      Nowhere(ths[1..], cs, id);
    } else if cs != [] {
      Nowhere(ths, cs[1..], id);
    }
  }

  lemma InitInv(s: System)
    requires Init(s)
    ensures Inv(s)
  {
    Nowhere(s.threads, s.table.chains, Pool(0));
    forall id: RecId
      ensures Places(s, id) == 0
    {
      Nowhere(s.threads, s.table.chains, id);
    }
  }

  /** Replacing one chain of the table. */
  lemma ChainReplaced(t: Table, obj: Obj, c: seq<Entry>)
    requires TableOk(t) && ChainOk(Bucket(obj), c)
    ensures var t' := WithChain(t, obj, c);
            && Shaped(t') && (forall b :: 0 <= b < BUCKETS ==> ChainOk(b, t'.chains[b]))
            && Length(t'.chains) + |Chain(t, obj)| == Length(t.chains) + |c|
  {
    LengthWrite(t.chains, Bucket(obj), c);
  }

  /** Rewriting a record in place: same identity, same object, still referenced. */
  lemma RecordRewritten(t: Table, obj: Obj, k: nat, e: Entry)
    requires TableOk(t) && k < |Chain(t, obj)|
    requires e.id == Chain(t, obj)[k].id && e.obj == Chain(t, obj)[k].obj && e.kind != Unknown && e.local + e.global > 0
    ensures var t' := WithChain(t, obj, Chain(t, obj)[k := e]);
            TableOk(t') && forall id :: TableCount(t', id) == TableCount(t, id)
  {
    var c := Chain(t, obj);
    ChainReplaced(t, obj, c[k := e]);
    forall id
      ensures CountChains(WithChain(t, obj, c[k := e]).chains, id) == CountChains(t.chains, id)
    {
      ChainsWrite(t.chains, Bucket(obj), c[k := e], id);
      ChainWrite(c, k, e, id);
    }
  }

  function One(id: RecId, id': RecId): nat {
    if id == id' then 1 else 0
  }

  lemma BeginOk(t: Table, obj: Obj, kind: Kind)
    requires TableOk(t)
    ensures var (t', taken) := RegisterBegin(t, obj, kind);
            && TableOk(t')
            && (taken.Record? ==> taken.id.Pool?)
            && (forall id ::
                  TableCount(t', id) + (if taken.Record? then One(taken.id, id) else 0)
                  == TableCount(t, id) + if taken.Record? && t.free == [] then One(Pool(t.poolUsed), id) else 0)
            && t'.poolUsed == t.poolUsed + if taken.Record? && t.free == [] then 1 else 0
  {
    var c := Chain(t, obj);
    var k := Find(c, obj);
    if k < |c| {
      assert ChainOk(Bucket(obj), c);
      RecordRewritten(t, obj, k, Adopt(c[k], kind));
    }
  }

  /** Stepping a wrapped number. */
  lemma WrapStep(x: nat)
    ensures (x + 1) % WORD == if x % WORD == WORD - 1 then 0 else x % WORD + 1
  {
    var q, r := x / WORD, x % WORD;
    if r == WORD - 1 {
      Quotient(x + 1, q + 1, 0);
    } else {
      Quotient(x + 1, q, r + 1);
    }
  }

  lemma Quotient(x: nat, q: nat, r: nat)
    requires x == q * WORD + r && r < WORD
    ensures x % WORD == r
  {
  }

  lemma CountersUp(live: nat, created: nat, freed: nat, n: nat)
    requires live == n % WORD && (live + freed) % WORD == created % WORD
    ensures Inc(live) == (n + 1) % WORD && (Inc(live) + freed) % WORD == Inc(created) % WORD
  {
    WrapStep(n);
    WrapStep(live);
    WrapStep(created);
    WrapStep(live + freed);
    if live + 1 == WORD {
      Quotient(live + freed + 1, (live + freed + 1) / WORD, (live + freed + 1) % WORD);
      Quotient(freed, (live + freed + 1) / WORD - 1, (live + freed + 1) % WORD);
    }
  }

  lemma CountersDown(live: nat, created: nat, freed: nat, n: nat)
    requires n > 0 && live == n % WORD && (live + freed) % WORD == created % WORD
    ensures Dec(live) == (n - 1) % WORD && (Dec(live) + Inc(freed)) % WORD == created % WORD
  {
    WrapStep(n - 1);
    WrapStep(freed);
    DecIs(live);
    IncIs(freed);
    hide Dec, Inc;
    var q := (if live == 0 then 1 else 0) - (if freed % WORD == WORD - 1 then 1 else 0) - freed / WORD;
    SumWraps(Dec(live) + Inc(freed), live + freed, q);
  }

  lemma DecIs(live: nat)
    requires live < WORD
    ensures Dec(live) == if live == 0 then WORD - 1 else live - 1
  {
  }

  lemma IncIs(freed: nat)
    ensures Inc(freed) == if freed % WORD == WORD - 1 then 0 else freed % WORD + 1
  {
    WrapStep(freed);
  }

  lemma SumWraps(x: nat, y: nat, q: int)
    requires x == y + q * WORD
    ensures x % WORD == y % WORD
  {
    Quotient(x, y / WORD + q, y % WORD);
  }

  lemma ReturnOk(t: Table, id: RecId)
    requires TableOk(t)
    ensures TableOk(Return(t, id)) && Return(t, id).poolUsed == t.poolUsed
    ensures forall x :: TableCount(Return(t, id), x) == TableCount(t, x) + if id.Block? then 0 else One(id, x)
  {
    assert ([id] + t.free)[1..] == t.free;
  }

  /** A new record in front of its chain. */
  lemma RecordPrepended(t: Table, obj: Obj, e: Entry)
    requires TableOk(t) && Find(Chain(t, obj), obj) == |Chain(t, obj)|
    requires e.obj == obj && e.kind != Unknown && e.local + e.global > 0
    ensures var t' := WithChain(t, obj, [e] + Chain(t, obj));
            && Shaped(t') && (forall b :: 0 <= b < BUCKETS ==> ChainOk(b, t'.chains[b]))
            && Length(t'.chains) == Length(t.chains) + 1
            && forall x :: CountChains(t'.chains, x) == CountChains(t.chains, x) + One(e.id, x)
  {
    var c := Chain(t, obj);
    var c' := [e] + c;
    assert ChainOk(Bucket(obj), c');
    ChainReplaced(t, obj, c');
    forall x
      ensures CountChains(WithChain(t, obj, c').chains, x) == CountChains(t.chains, x) + One(e.id, x)
    {
      ChainsWrite(t.chains, Bucket(obj), c', x);
      assert c'[1..] == c;
    }
  }

  lemma LinkOk(t: Table, obj: Obj, kind: Kind, id: RecId)
    requires TableOk(t) && kind != Unknown && Find(Chain(t, obj), obj) == |Chain(t, obj)|
    ensures var t' := RegisterCommit(t, obj, kind, id);
            && TableOk(t') && t'.poolUsed == t.poolUsed
            && forall x :: TableCount(t', x) == TableCount(t, x) + One(id, x)
  {
    hide Inc, ChainOk, Length, CountChains, Find;
    RecordPrepended(t, obj, Entry(id, obj, kind, 1, 0));
    CountersUp(t.live, t.created, t.freed, Length(t.chains));
  }

  lemma CommitOk(t: Table, obj: Obj, kind: Kind, id: RecId)
    requires TableOk(t) && kind != Unknown
    ensures var t' := RegisterCommit(t, obj, kind, id);
            var known := Find(Chain(t, obj), obj) < |Chain(t, obj)|;
            && TableOk(t') && t'.poolUsed == t.poolUsed
            && forall x :: TableCount(t', x) == TableCount(t, x) + if known && id.Block? then 0 else One(id, x)
  {
    var c := Chain(t, obj);
    var k := Find(c, obj);
    if k < |c| {
      assert ChainOk(Bucket(obj), c);
      RecordRewritten(t, obj, k, Adopt(c[k], kind));
      ReturnOk(WithChain(t, obj, c[k := Adopt(c[k], kind)]), id);
    } else {
      LinkOk(t, obj, kind, id);
    }
  }

  lemma AddRefOk(t: Table, obj: Obj, asGlobal: bool)
    requires TableOk(t)
    ensures var t' := AddRef(t, obj, asGlobal);
            TableOk(t') && t'.poolUsed == t.poolUsed && forall id :: TableCount(t', id) == TableCount(t, id)
  {
    var c := Chain(t, obj);
    var k := Find(c, obj);
    assert ChainOk(Bucket(obj), c);
    if k < |c| {
      RecordRewritten(t, obj, k, WithCounts(c[k], WithRef(CountsOf(c[k]), asGlobal)));
    }
  }

  lemma ReleaseOk(t: Table, obj: Obj, preferGlobal: bool)
    requires TableOk(t)
    ensures var (t', r) := Release(t, obj, preferGlobal);
            && TableOk(t') && t'.poolUsed == t.poolUsed
            && forall id ::
                 TableCount(t', id) + (if r.Unlinked? && r.e.id.Block? then One(r.e.id, id) else 0) == TableCount(t, id)
  {
    var c := Chain(t, obj);
    var k := Find(c, obj);
    assert ChainOk(Bucket(obj), c);
    if !Reserved(obj) && k < |c| {
      var e := WithCounts(c[k], Dropped(CountsOf(c[k]), preferGlobal));
      assert c[k].kind != Unknown && c[k].obj == obj && e.id == c[k].id;
      hide ChainOk, CountFree, CountChains, TableCount, Find, Bucket;
      if e.local == 0 && e.global == 0 {
        UnlinkOk(t, obj, k, e.id);
      } else {
        RecordRewritten(t, obj, k, e);
      }
    }
  }

  lemma UnlinkCounts(t: Table, obj: Obj, k: nat, id: RecId, x: RecId)
    requires Shaped(t) && k < |Chain(t, obj)| && id == Chain(t, obj)[k].id
    ensures var c := Chain(t, obj);
            var t' := Return(WithChain(t, obj, c[..k] + c[k + 1..]), id);
            TableCount(t', x) + (if id.Block? then One(id, x) else 0) == TableCount(t, x)
  {
    var c := Chain(t, obj);
    var c' := c[..k] + c[k + 1..];
    ChainsWrite(t.chains, Bucket(obj), c', x);
    ChainCut(c, k, x);
    hide Bucket, CountChain, CountChains;
    assert ([id] + t.free)[1..] == t.free;
  }

  lemma UnlinkOk(t: Table, obj: Obj, k: nat, id: RecId)
    requires TableOk(t) && k < |Chain(t, obj)| && id == Chain(t, obj)[k].id
    ensures var c := Chain(t, obj);
            var t' := Return(WithChain(t, obj, c[..k] + c[k + 1..]), id).(live := Dec(t.live), freed := Inc(t.freed));
            && TableOk(t')
            && forall x :: TableCount(t', x) + (if id.Block? then One(id, x) else 0) == TableCount(t, x)
  {
    hide Inc, Dec, CountFree, CountChains;
    var c := Chain(t, obj);
    var c' := c[..k] + c[k + 1..];
    assert ChainOk(Bucket(obj), c);
    assert ChainOk(Bucket(obj), c');
    ChainReplaced(t, obj, c');
    CountersDown(t.live, t.created, t.freed, Length(t.chains));
    forall x
      ensures TableCount(Return(WithChain(t, obj, c'), id), x) + (if id.Block? then One(id, x) else 0)
           == TableCount(t, x)
    {
      UnlinkCounts(t, obj, k, id, x);
    }
  }

  lemma PlacesMoved(s: System, s': System, t: nat, th: Thread, id: RecId)
    requires t < |s.threads| && s'.threads == s.threads[t := th]
    ensures Places(s', id) + TableCount(s.table, id) + CountHeld(s.threads[t], id)
         == Places(s, id) + TableCount(s'.table, id) + CountHeld(th, id)
  {
    PrivateWrite(s.threads, t, th, id);
  }

  lemma DoomHeld(th: Thread, x: RecId, id: RecId)
    ensures CountHeld(Doom(th, x), id) == CountHeld(th, id) + if x.Block? then One(x, id) else 0
  {
    FreeAppend(th.doomed, x, id);
  }

  lemma BeginStep(s: System, t: nat, obj: Obj, kind: Kind)
    requires Inv(s) && t < |s.threads| && Step(s, t, Begin(obj, kind)).Next?
    ensures Inv(Step(s, t, Begin(obj, kind)).s)
  {
    assert Shaped(s.table);
    hide TableOk, RegisterBegin;
    var s' := Step(s, t, Begin(obj, kind)).s;
    BeginOk(s.table, obj, kind);
    forall id: RecId
      ensures Places(s', id) == if Exists(s', id) then 1 else 0
    {
      PlacesMoved(s, s', t, s'.threads[t], id);
      assert Places(s, id) == if Exists(s, id) then 1 else 0;
    }
  }

  lemma CommitStep(s: System, t: nat)
    requires Inv(s) && t < |s.threads| && Step(s, t, Commit).Next?
    ensures Inv(Step(s, t, Commit).s)
  {
    assert Shaped(s.table);
    hide TableOk, RegisterCommit;
    var s' := Step(s, t, Commit).s;
    var HasRecord(obj, kind, x) := s.threads[t].reg;
    CommitOk(s.table, obj, kind, x);
    forall id: RecId
      ensures Places(s', id) == if Exists(s', id) then 1 else 0
    {
      PlacesMoved(s, s', t, s'.threads[t], id);
      DoomHeld(s.threads[t].(reg := Idle), x, id);
      assert Places(s, id) == if Exists(s, id) then 1 else 0;
    }
  }

  lemma DropStep(s: System, t: nat, obj: Obj, preferGlobal: bool)
    requires Inv(s) && t < |s.threads|
    ensures Inv(Step(s, t, Drop(obj, preferGlobal)).s)
  {
    assert Shaped(s.table);
    hide TableOk, Release;
    var s' := Step(s, t, Drop(obj, preferGlobal)).s;
    ReleaseOk(s.table, obj, preferGlobal);
    var (_, released) := Release(s.table, obj, preferGlobal);
    forall id: RecId
      ensures Places(s', id) == if Exists(s', id) then 1 else 0
    {
      PlacesMoved(s, s', t, s'.threads[t], id);
      if released.Unlinked? {
        DoomHeld(s.threads[t], released.e.id, id);
      }
      assert Places(s, id) == if Exists(s, id) then 1 else 0;
    }
  }

  lemma AddStep(s: System, t: nat, obj: Obj, asGlobal: bool)
    requires Inv(s) && t < |s.threads|
    ensures Inv(Step(s, t, Add(obj, asGlobal)).s)
  {
    var s' := Step(s, t, Add(obj, asGlobal)).s;
    AddRefOk(s.table, obj, asGlobal);
    forall id: RecId
      ensures Places(s', id) == if Exists(s', id) then 1 else 0
    {
      assert Places(s, id) == if Exists(s, id) then 1 else 0;
      assert TableCount(s'.table, id) == TableCount(s.table, id);
    }
  }

  lemma MallocStep(s: System, t: nat, a: Action)
    requires Inv(s) && t < |s.threads| && (a.Malloc? || a.MallocFails?) && Step(s, t, a).Next?
    ensures Inv(Step(s, t, a).s)
  {
    var s' := Step(s, t, a).s;
    forall id: RecId
      ensures Places(s', id) == if Exists(s', id) then 1 else 0
    {
      PlacesMoved(s, s', t, s'.threads[t], id);
      assert Places(s, id) == if Exists(s, id) then 1 else 0;
    }
  }

  lemma FreeStep(s: System, t: nat)
    requires Inv(s) && t < |s.threads| && Step(s, t, FreeRecord).Next?
    ensures Inv(Step(s, t, FreeRecord).s)
  {
    var s' := Step(s, t, FreeRecord).s;
    var th := s.threads[t];
    var n := |th.doomed| - 1;
    forall id: RecId
      ensures Places(s', id) == if Exists(s', id) then 1 else 0
    {
      PlacesMoved(s, s', t, s'.threads[t], id);
      assert th.doomed == th.doomed[..n] + [th.doomed[n]];
      FreeAppend(th.doomed[..n], th.doomed[n], id);
      assert Places(s, id) == if Exists(s, id) then 1 else 0;
    }
  }

  /** No step of any thread breaks the invariant. */
  lemma StepInv(s: System, t: nat, a: Action)
    requires Inv(s) && t < |s.threads| && Step(s, t, a).Next?
    ensures Inv(Step(s, t, a).s)
  {
    hide *;
    match a
    case Begin(obj, kind) => BeginStep(s, t, obj, kind);
    case Malloc(_) => MallocStep(s, t, a);
    case MallocFails => MallocStep(s, t, a);
    case Commit => CommitStep(s, t);
    case FreeRecord => FreeStep(s, t);
    case Add(obj, asGlobal) => AddStep(s, t, obj, asGlobal);
    case Drop(obj, preferGlobal) => DropStep(s, t, obj, preferGlobal);
  }

  /** A schedule names who moves and how; moves that are not enabled are skipped. */
  function Run(s: System, schedule: seq<(nat, Action)>): System {
    if schedule == [] then s else
    var s1 := Run(s, schedule[..|schedule| - 1]);
    var (t, a) := schedule[|schedule| - 1];
    if t < |s1.threads| && Shaped(s1.table) && Step(s1, t, a).Next? then Step(s1, t, a).s else s1
  }

  /** Whatever the interleaving, the invariant holds. */
  lemma {:induction false} RunInv(s: System, schedule: seq<(nat, Action)>)
    requires Init(s)
    ensures Inv(Run(s, schedule))
  {
    if schedule == [] {
      InitInv(s);
    } else {
      var n := |schedule| - 1;
      RunInv(s, schedule[..n]);
      var s1 := Run(s, schedule[..n]);
      var (t, a) := schedule[n];
      if t < |s1.threads| && Shaped(s1.table) && Step(s1, t, a).Next? {
        StepInv(s1, t, a);
      }
    }
  }

  lemma {:induction false} HeldCounts(ths: seq<Thread>, t: nat, id: RecId)
    requires t < |ths|
    ensures CountHeld(ths[t], id) <= CountPrivate(ths, id)
    ensures forall u :: t < u < |ths| ==> CountHeld(ths[t], id) + CountHeld(ths[u], id) <= CountPrivate(ths, id)
  {
    if t > 0 {
      HeldCounts(ths[1..], t - 1, id);
      forall u | t < u < |ths|
        ensures CountHeld(ths[t], id) + CountHeld(ths[u], id) <= CountPrivate(ths, id)
      {
        assert ths[u] == ths[1..][u - 1];
      }
    } else {
      forall u | 0 < u < |ths|
        ensures CountHeld(ths[u], id) <= CountPrivate(ths[1..], id)
      {
        HeldCounts(ths[1..], u - 1, id);
        assert ths[u] == ths[1..][u - 1];
      }
    }
  }

  /**
   A pool record is in one place once it has been taken; no two threads share a record; the counters
   agree with the chains.
   */
  ghost predicate RecordsOk(s: System) {
    && (forall i :: 0 <= i < POOL_SIZE ==> Places(s, Pool(i)) == if i < s.table.poolUsed then 1 else 0)
    && (forall t, u, id :: 0 <= t < u < |s.threads| ==>
                             CountHeld(s.threads[t], id) == 0 || CountHeld(s.threads[u], id) == 0)
    && s.table.live == Length(s.table.chains) % 0x1_0000_0000
    && s.table.created % 0x1_0000_0000 == (s.table.live + s.table.freed) % 0x1_0000_0000
  }

  lemma InvRecords(s: System)
    requires Inv(s)
    ensures RecordsOk(s)
  {
    forall i | 0 <= i < POOL_SIZE
      ensures Places(s, Pool(i)) == if i < s.table.poolUsed then 1 else 0
    {
      assert Places(s, Pool(i)) == if Exists(s, Pool(i)) then 1 else 0;
    }
    forall t, u, id | 0 <= t < u < |s.threads|
      ensures CountHeld(s.threads[t], id) == 0 || CountHeld(s.threads[u], id) == 0
    {
      HeldCounts(s.threads, t, id);
      assert Places(s, id) == if Exists(s, id) then 1 else 0;
    }
  }

  /**
   In every reachable state: a pool record is never used, or in exactly one of free
   list, chains and private hands; no two threads share a record; and live = created -
   freed = total chain length, modulo the width of the counters.
   */
  lemma ReachableRecords(s0: System, schedule: seq<(nat, Action)>)
    requires Init(s0)
    ensures RecordsOk(Run(s0, schedule))
  {
    RunInv(s0, schedule);
    InvRecords(Run(s0, schedule));
  }

  /** Two records of one object in the chains are one record in one place. */
  lemma OneRecordPerObject(s0: System, schedule: seq<(nat, Action)>, b: nat, i: nat, b': nat, i': nat)
    requires Init(s0)
    requires var cs := Run(s0, schedule).table.chains;
             && b < |cs| && i < |cs[b]| && b' < |cs| && i' < |cs[b']|
             && cs[b][i].obj == cs[b'][i'].obj
    ensures b == b' && i == i'
  {
    RunInv(s0, schedule);
    var cs := Run(s0, schedule).table.chains;
    assert ChainOk(b, cs[b]) && ChainOk(b', cs[b']);
  }
}
