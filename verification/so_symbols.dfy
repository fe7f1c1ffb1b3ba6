/**
 Finding a dynamic symbol: the walk along one hash chain with the scan of the whole
 symbol table behind it, and the search through the modules a module depends on.
 */
module SoSymbols {
  import opened Basics
  import SoHash

  /** A C string without its terminator. */
  type Name = s: seq<bv8> | 0 !in s witness []

  const SHN_UNDEF := 0

  datatype Symbol = Symbol(name: Name, value: Word, size: Word, shndx: nat, info: nat)

  predicate Matches(sym: Symbol, name: Name) {
    sym.shndx != SHN_UNDEF && sym.info != SHN_UNDEF && sym.name == name
  }

  // ----- the hash table, as the words of its section: nbucket, nchain, buckets, chain

  function BucketCount(hash: seq<Word>): nat
    requires |hash| > 0
  {
    hash[0]
  }

  /** Every link leads to a symbol of the table. */
  predicate WellFormed(hash: seq<Word>, count: nat) {
    && 0 < |hash| && 0 < BucketCount(hash) && |hash| == 2 + BucketCount(hash) + count
    && forall k :: 2 <= k < |hash| ==> hash[k] < count
  }

  function Bucket(hash: seq<Word>, count: nat, name: Name): (i: nat)
    requires WellFormed(hash, count)
    ensures i < count
  {
    hash[2 + SoHash.GabiHash(name) as nat % BucketCount(hash)]
  }

  function Next(hash: seq<Word>, count: nat, i: nat): (j: nat)
    requires WellFormed(hash, count) && i < count
    ensures j < count
  {
    hash[2 + BucketCount(hash) + i]
  }

  /** No chain runs in a circle: every step away from a symbol leads to a lower rank, or to the end. */
  ghost predicate Ranked(hash: seq<Word>, count: nat, rank: seq<nat>)
    requires WellFormed(hash, count)
  {
    && |rank| == count
    && forall i {:trigger rank[i]} :: 0 < i < count && Next(hash, count, i) != 0 ==>
                                        rank[Next(hash, count, i)] < rank[i]
  }

  ghost predicate Acyclic(hash: seq<Word>, count: nat)
    requires WellFormed(hash, count)
  {
    exists rank :: Ranked(hash, count, rank)
  }

  // ----- what a search finds; -1 is nothing

  /** The first match along the chain that starts at `i`. */
  ghost function OnChain(syms: seq<Symbol>, hash: seq<Word>, rank: seq<nat>, name: Name, i: nat): (r: int)
    requires WellFormed(hash, |syms|) && Ranked(hash, |syms|, rank) && i < |syms|
    ensures r == -1 || (0 <= r < |syms| && Matches(syms[r], name))
    decreases if i == 0 then 0 else rank[i] + 1
  {
    if i == 0 then -1
    else if Matches(syms[i], name) then i
    else OnChain(syms, hash, rank, name, Next(hash, |syms|, i))
  }

  /** The lowest match from `from` on. */
  function Lowest(syms: seq<Symbol>, name: Name, from: nat): (r: int)
    requires from <= |syms|
    ensures r == -1 ==> forall i :: from <= i < |syms| ==> !Matches(syms[i], name)
    ensures r != -1 ==>
              from <= r < |syms| && Matches(syms[r], name) && forall i :: from <= i < r ==> !Matches(syms[i], name)
    decreases |syms| - from
  {
    if from == |syms| then -1 else if Matches(syms[from], name) then from else Lowest(syms, name, from + 1)
  }

  /** The dynamic symbols of a module, with its hash section if there is one. */
  datatype Table = Table(syms: seq<Symbol>, hashed: bool, hash: seq<Word>) {
    ghost predicate Searchable() {
      hashed ==> WellFormed(hash, |syms|) && Acyclic(hash, |syms|)
    }

    /** What so_symbol_index returns: the first match on the chain, else the lowest match at all. */
    ghost function Find(name: Name): (r: int)
      requires Searchable()
      ensures r == -1 || (0 <= r < |syms| && Matches(syms[r], name))
    {
      var onChain := if hashed then
                       var rank :| Ranked(hash, |syms|, rank);
                       OnChain(syms, hash, rank, name, Bucket(hash, |syms|, name))
                     else -1;
      if onChain != -1 then onChain else Lowest(syms, name, 0)
    }
  }

  /**
   Nothing is found exactly if no symbol matches. With unique names the chain is only a
   short cut for the scan, even if it leaves symbols out.
   */
  lemma FindExact(t: Table, name: Name)
    requires t.Searchable()
    ensures t.Find(name) == -1 <==>
              forall i :: 0 <= i < |t.syms| && t.syms[i].name == name ==> t.syms[i].shndx == 0 || t.syms[i].info == 0
    ensures t.Find(name) != -1 ==>
              && 0 <= t.Find(name) < |t.syms|
              && var sym := t.syms[t.Find(name)]; sym.name == name && sym.shndx != 0 && sym.info != 0
    ensures UniqueNames(t.syms) ==> t.Find(name) == Lowest(t.syms, name, 0)
  {
    MatchesMeans(t.syms, name);
    hide Matches, WellFormed, Bucket;
  }

  lemma MatchesMeans(syms: seq<Symbol>, name: Name)
    ensures forall i :: 0 <= i < |syms| ==>
              (Matches(syms[i], name) <==> syms[i].name == name && syms[i].shndx != 0 && syms[i].info != 0)
  {
  }

  /** An import entry, whose section is SHN_UNDEF, is never found, whatever comes before it. */
  lemma ImportsNotFound(t: Table, name: Name, i: nat)
    requires t.Searchable() && i < |t.syms| && t.syms[i].shndx == 0
    ensures t.Find(name) != i
  {
    FindExact(t, name);
  }

  /** No two symbols that a search may return share a name. */
  ghost predicate UniqueNames(syms: seq<Symbol>) {
    forall i, j, name :: 0 <= i < |syms| && 0 <= j < |syms| && Matches(syms[i], name) && Matches(syms[j], name) ==>
                           i == j
  }

  /** The linear part. */
  method Scan(syms: seq<Symbol>, name: Name) returns (r: int)
    ensures r == Lowest(syms, name, 0)
  {
    r := 0;
    while r < |syms|
      invariant 0 <= r <= |syms|
      invariant Lowest(syms, name, 0) == Lowest(syms, name, r)
    {
      if Matches(syms[r], name) {
        return;
      }
      r := r + 1;
    }
    r := -1;
  }

  method FirstOnChain(hash: seq<Word>, count: nat, name: Name) returns (i: nat)
    requires WellFormed(hash, count)
    ensures i == Bucket(hash, count, name)
  {
    var h := SoHash.Hash(name);
    i := hash[2 + h as nat % BucketCount(hash)];
  }

  lemma RankFalls(hash: seq<Word>, count: nat, rank: seq<nat>, i: nat)
    requires WellFormed(hash, count) && Ranked(hash, count, rank) && 0 < i < count
    ensures |rank| == count && (Next(hash, count, i) != 0 ==> rank[Next(hash, count, i)] < rank[i])
  {
  }

  /** The part along the chain; it ends on every chain without a circle. */
  method Walk(syms: seq<Symbol>, hash: seq<Word>, ghost rank: seq<nat>, name: Name) returns (r: int)
    requires WellFormed(hash, |syms|) && Ranked(hash, |syms|, rank)
    ensures r == OnChain(syms, hash, rank, name, Bucket(hash, |syms|, name))
    ensures r == -1 || (0 <= r < |syms| && Matches(syms[r], name))
  {
    var i: nat := FirstOnChain(hash, |syms|, name);
    hide WellFormed, Bucket, Matches, Next, Ranked;
    ghost var start := i;
    while i != 0
      invariant 0 <= i < |syms| == |rank|
      invariant OnChain(syms, hash, rank, name, i) == OnChain(syms, hash, rank, name, start)
      decreases if i == 0 then 0 else rank[i] + 1
    {
      if Matches(syms[i], name) {
        return i;
      }
      RankFalls(hash, |syms|, rank, i);
      i := Next(hash, |syms|, i);
    }
    r := -1;
  }

  /** so_symbol_index. */
  method SymbolIndex(t: Table, name: Name) returns (r: int)
    requires t.Searchable()
    ensures r == t.Find(name)
  {
    if t.hashed {
      ghost var rank :| Ranked(t.hash, |t.syms|, rank);
      r := Walk(t.syms, t.hash, rank, name);
      forall other | Ranked(t.hash, |t.syms|, other)
        ensures r == OnChain(t.syms, t.hash, other, name, Bucket(t.hash, |t.syms|, name))
      {
        RankIrrelevant(t.syms, t.hash, rank, other, name, Bucket(t.hash, |t.syms|, name));
      }
      if r != -1 {
        return;
      }
    }
    r := Scan(t.syms, name);
  }

  lemma {:induction false} RankIrrelevant(syms: seq<Symbol>, hash: seq<Word>, rank: seq<nat>, other: seq<nat>,
                                          name: Name, i: nat)
    requires WellFormed(hash, |syms|) && Ranked(hash, |syms|, rank) && Ranked(hash, |syms|, other) && i < |syms|
    ensures OnChain(syms, hash, rank, name, i) == OnChain(syms, hash, other, name, i)
    decreases if i == 0 then 0 else rank[i] + 1
  {
    hide WellFormed, Matches;
    if i != 0 {
      RankIrrelevant(syms, hash, rank, other, name, Next(hash, |syms|, i));
    }
  }

  // ----- modules

  datatype Module = Module(soname: Name, base: Word, table: Table)

  ghost predicate AllSearchable(mods: seq<Module>) {
    forall k :: 0 <= k < |mods| ==> mods[k].table.Searchable()
  }

  /** so_symbol: the address in memory, 0 if there is no such symbol. */
  ghost function Address(m: Module, name: Name): Word
    requires m.table.Searchable()
  {
    var r := m.table.Find(name);
    FindExact(m.table, name);
    if r == -1 then 0 else Wrap(m.base + m.table.syms[r].value)
  }

  method SymbolAddress(m: Module, name: Name) returns (addr: Word)
    requires m.table.Searchable()
    ensures addr == Address(m, name)
  {
    var r := SymbolIndex(m.table, name);
    FindExact(m.table, name);
    if r == -1 {
      return 0;
    }
    addr := Wrap(m.base + m.table.syms[r].value);
  }

  /** What module `k` offers a module at place `self` that depends on `dep`. */
  ghost function Offer(mods: seq<Module>, self: nat, dep: Name, name: Name, k: nat): Word
    requires AllSearchable(mods) && k < |mods|
  {
    if k != self && mods[k].soname == dep then Address(mods[k], name) else 0
  }

  /** The first offer that is not 0 among the modules from `k` on. */
  ghost function OfferFrom(mods: seq<Module>, self: nat, dep: Name, name: Name, k: nat): Word
    requires AllSearchable(mods) && k <= |mods|
    decreases |mods| - k
  {
    if k == |mods| then 0
    else if Offer(mods, self, dep, name, k) != 0 then Offer(mods, self, dep, name, k)
    else OfferFrom(mods, self, dep, name, k + 1)
  }

  /** so_resolve_link: the dependencies in their order, for each the modules in load order. */
  ghost function Link(mods: seq<Module>, self: nat, needed: seq<Name>, name: Name, i: nat): Word
    requires AllSearchable(mods) && i <= |needed|
    decreases |needed| - i
  {
    if i == |needed| then 0
    else if OfferFrom(mods, self, needed[i], name, 0) != 0 then OfferFrom(mods, self, needed[i], name, 0)
    else Link(mods, self, needed, name, i + 1)
  }

  lemma {:induction false} OfferExact(mods: seq<Module>, self: nat, dep: Name, name: Name, k: nat)
    requires AllSearchable(mods) && k <= |mods|
    ensures OfferFrom(mods, self, dep, name, k) == 0
       <==> forall j :: k <= j < |mods| ==> Offer(mods, self, dep, name, j) == 0
    decreases |mods| - k
  {
    hide AllSearchable;
    if k < |mods| {
      OfferExact(mods, self, dep, name, k + 1);
    }
  }

  /** A link is missing exactly if no loaded dependency defines the name at a nonzero address. */
  lemma {:induction false} LinkExact(mods: seq<Module>, self: nat, needed: seq<Name>, name: Name, i: nat)
    requires AllSearchable(mods) && i <= |needed|
    ensures Link(mods, self, needed, name, i) == 0
       <==> forall d, j :: i <= d < |needed| && 0 <= j < |mods| ==> Offer(mods, self, needed[d], name, j) == 0
    decreases |needed| - i
  {
    hide AllSearchable, Offer;
    if i < |needed| {
      OfferExact(mods, self, needed[i], name, 0);
      LinkExact(mods, self, needed, name, i + 1);
    }
  }

  /**
   A link is the address that the first dependency and, for it, the first other module of that
   name offer: everything before it in that order offers 0.
   */
  lemma {:induction false} LinkFirst(mods: seq<Module>, self: nat, needed: seq<Name>, name: Name, i: nat)
      returns (d: nat, k: nat, r: nat)
    requires AllSearchable(mods) && i <= |needed| && Link(mods, self, needed, name, i) != 0
    ensures i <= d < |needed| && k < |mods| && k != self && mods[k].soname == needed[d]
    ensures r < |mods[k].table.syms|
    ensures var sym := mods[k].table.syms[r];
            && sym.name == name && sym.shndx != 0 && sym.info != 0
            && Link(mods, self, needed, name, i) == (mods[k].base + sym.value) % 0x1_0000_0000
    ensures forall j :: 0 <= j < k ==> Offer(mods, self, needed[d], name, j) == 0
    ensures forall c, j :: i <= c < d && 0 <= j < |mods| ==> Offer(mods, self, needed[c], name, j) == 0
    decreases |needed| - i
  {
    hide Offer, OfferFrom, AllSearchable;
    OfferExact(mods, self, needed[i], name, 0);
    if OfferFrom(mods, self, needed[i], name, 0) != 0 {
      d := i;
      k := OfferFirst(mods, self, needed[i], name, 0);
      r := OfferedSymbol(mods, self, needed[i], name, k);
    } else {
      d, k, r := LinkFirst(mods, self, needed, name, i + 1);
    }
  }

  lemma {:induction false} OfferFirst(mods: seq<Module>, self: nat, dep: Name, name: Name, k: nat) returns (f: nat)
    requires AllSearchable(mods) && k <= |mods| && OfferFrom(mods, self, dep, name, k) != 0
    ensures k <= f < |mods| && OfferFrom(mods, self, dep, name, k) == Offer(mods, self, dep, name, f) != 0
    ensures forall j :: k <= j < f ==> Offer(mods, self, dep, name, j) == 0
    decreases |mods| - k
  {
    hide Offer, AllSearchable;
    if Offer(mods, self, dep, name, k) != 0 {
      f := k;
    } else {
      f := OfferFirst(mods, self, dep, name, k + 1);
    }
  }

  lemma OfferedSymbol(mods: seq<Module>, self: nat, dep: Name, name: Name, k: nat) returns (r: nat)
    requires AllSearchable(mods) && k < |mods| && Offer(mods, self, dep, name, k) != 0
    ensures k != self && mods[k].soname == dep && r < |mods[k].table.syms|
    ensures var sym := mods[k].table.syms[r];
            && sym.name == name && sym.shndx != 0 && sym.info != 0
            && Offer(mods, self, dep, name, k) == (mods[k].base + sym.value) % 0x1_0000_0000
  {
    FindExact(mods[k].table, name);
    r := mods[k].table.Find(name);
  }

  method ResolveLink(mods: seq<Module>, self: nat, needed: seq<Name>, name: Name) returns (link: Word)
    requires AllSearchable(mods)
    ensures link == Link(mods, self, needed, name, 0)
  {
    var i := 0;
    hide AllSearchable;
    while i < |needed|
      invariant 0 <= i <= |needed|
      invariant Link(mods, self, needed, name, i) == Link(mods, self, needed, name, 0)
    {
      link := LinkOf(mods, self, needed[i], name);
      if link != 0 {
        return;
      }
      i := i + 1;
    }
    assert i == |needed|;
    link := 0;
  }

  method LinkOf(mods: seq<Module>, self: nat, dep: Name, name: Name) returns (link: Word)
    requires AllSearchable(mods)
    ensures link == OfferFrom(mods, self, dep, name, 0)
  {
    var k := 0;
    while k < |mods|
      invariant 0 <= k <= |mods|
      invariant OfferFrom(mods, self, dep, name, k) == OfferFrom(mods, self, dep, name, 0)
    {
      if k != self && mods[k].soname == dep {
        link := SymbolAddress(mods[k], name);
        if link != 0 {
          return;
        }
      }
      k := k + 1;
    }
    assert k == |mods|;
    link := 0;
  }
}
