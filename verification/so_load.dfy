/**
 Loading an image: memory blocks that the kernel may refuse at any point, the copies into
 them, and the release of everything when the load fails.
 */
module SoLoad {
  import opened Basics
  import opened SoSegments

  const PATCH_SZ := 0x10000
  const MAX_DATA_SEG := 4
  const HEADER_SIZE := 52
  const FILE_MAX := 0x7FFF_F000

  datatype Block = Block(base: int, size: nat)

  type Blocks = map<int, Block>

  /** A call that the system turned down, with its answer. */
  datatype Refusal = OpenFailed(code: int) | SeekFailed(code: int) | AllocFailed(code: int) | BaseFailed(code: int)
                   | ReadFailed(code: int)

  /** The result that a refusal leads to: a seek that fails and a file that ends early are -1. */
  function Reported(r: Refusal): int {
    match r
    case SeekFailed(_) => -1
    case ReadFailed(code) => if code == 0 then -1 else code
    case _ => r.code
  }

  /**
   What a call returns: if the system turned nothing down, 0 exactly if `good` and `code`
   otherwise; or else what its only refusal leads to.
   */
  ghost predicate Answered(before: seq<Refusal>, after: seq<Refusal>, res: int, good: bool, code: int) {
    if after == before then res == if good then 0 else code
    else |after| == |before| + 1 && after[..|before|] == before && res == Reported(after[|before|]) < 0
  }

  predicate Inside(b: Block, at: int, n: nat) {
    b.base <= at && at + n <= b.base + b.size
  }

  /** Memory outside the block is as before. */
  ghost predicate KeptOutside(mem: map<int, Byte>, mem': map<int, Byte>, b: Block) {
    forall a :: a in mem && !(b.base <= a < b.base + b.size) ==> a in mem' && mem'[a] == mem[a]
  }

  /** Memory blocks, memory and open files. Blocks are placed where the caller asks; ids are never used twice. */
  class Kernel {
    var live: Blocks
    var nextId: int
    var mem: map<int, Byte>
    var files: set<int>
    var nextFile: int

    /** All refusals so far. */
    ghost var refusals: seq<Refusal>

    ghost predicate Valid()
      reads this
    {
      && 0 < nextId && (forall id :: id in live ==> 0 < id < nextId)
      && 0 <= nextFile && (forall fd :: fd in files ==> 0 <= fd < nextFile)
    }

    constructor ()
      ensures Valid() && live == map[] && files == {} && refusals == []
    {
      live, nextId, mem, files, nextFile := map[], 1, map[], {}, 0;
      refusals := [];
    }

    /** A new block, whose memory holds nothing known yet, or an error. */
    method Alloc(base: int, size: nat) returns (res: int)
      requires Valid()
      modifies this`live, this`nextId, this`mem, this`refusals
      ensures Valid() && old(nextId) <= nextId
      ensures res < 0 ==> live == old(live) && mem == old(mem) && refusals == old(refusals) + [AllocFailed(res)]
      ensures res >= 0 ==> refusals == old(refusals)
      ensures res >= 0 ==> old(nextId) <= res && res !in old(live) && live == old(live)[res := Block(base, size)]
      ensures KeptOutside(old(mem), mem, Block(base, size))
    {
      var refused: bool := *;
      if refused {
        res :| res < 0;
        refusals := refusals + [AllocFailed(res)];
        return;
      }
      res := nextId;
      nextId := nextId + 1;
      live := live[res := Block(base, size)];
      mem := map a | a in mem && !(base <= a < base + size) :: mem[a];
    }

    /** Only a live block can be freed. */
    method Free(id: int)
      requires Valid() && id in live
      modifies this`live
      ensures Valid() && live == old(live) - {id}
    {
      live := live - {id};
    }

    /** memcpy to memory of a live block. */
    method Copy(at: int, bytes: seq<Byte>)
      requires exists id :: id in live && Inside(live[id], at, |bytes|)
      modifies this`mem
      ensures mem == CopyTo(old(mem), at, 1, bytes)
    {
      var i := 0;
      var mem0 := mem;
      ghost var want := CopyTo(mem0, at, 1, bytes);
      while i < |bytes|
        invariant 0 <= i <= |bytes| && CopyTo(mem, at + i, 1, bytes[i..]) == want
      {
        assert bytes[i..][1..] == bytes[i + 1..];
        mem := mem[at + i := bytes[i]];
        i := i + 1;
      }
      assert bytes[i..] == [];
    }

    method Open() returns (fd: int)
      requires Valid()
      modifies this`files, this`nextFile, this`refusals
      ensures Valid()
      ensures fd < 0 ==> files == old(files) && refusals == old(refusals) + [OpenFailed(fd)]
      ensures fd >= 0 ==> fd !in old(files) && files == old(files) + {fd} && refusals == old(refusals)
    {
      var refused: bool := *;
      if refused {
        fd :| fd < 0;
        refusals := refusals + [OpenFailed(fd)];
        return;
      }
      fd := nextFile;
      nextFile := nextFile + 1;
      files := files + {fd};
    }

    /** Moves to a position of an open file and answers with it. */
    method Seek(fd: int, to: nat) returns (pos: int)
      requires Valid() && fd in files
      modifies this`refusals
      ensures Valid()
      ensures pos < 0 ==> refusals == old(refusals) + [SeekFailed(pos)]
      ensures pos >= 0 ==> pos == to && refusals == old(refusals)
    {
      var refused: bool := *;
      if refused {
        pos :| pos < 0;
        refusals := refusals + [SeekFailed(pos)];
        return;
      }
      pos := to;
    }

    /** The address of a live block, or an error. */
    method BlockBase(id: int) returns (rc: int)
      requires Valid() && id in live
      modifies this`refusals
      ensures Valid() && rc <= 0
      ensures refusals == if rc < 0 then old(refusals) + [BaseFailed(rc)] else old(refusals)
    {
      var refused: bool := *;
      rc := 0;
      if refused {
        rc :| rc < 0;
        refusals := refusals + [BaseFailed(rc)];
      }
    }

    /** Some bytes of what is left of an open file; nothing or an error is a refusal. */
    method Read(fd: int, left: nat) returns (got: int)
      requires Valid() && fd in files && 0 < left
      modifies this`refusals
      ensures Valid() && got <= left
      ensures refusals == if got <= 0 then old(refusals) + [ReadFailed(got)] else old(refusals)
    {
      got :| got <= left;
      if got <= 0 {
        refusals := refusals + [ReadFailed(got)];
      }
    }

    /** Only an open file can be closed. */
    method Close(fd: int)
      requires Valid() && fd in files
      modifies this`files
      ensures Valid() && files == old(files) - {fd}
    {
      files := files - {fd};
    }
  }

  // ----- what a module holds

  /** Exactly the blocks `ids` have come to `live0`. */
  ghost predicate Owns(live: Blocks, live0: Blocks, ids: set<int>) {
    && ids !! live0.Keys && live.Keys == live0.Keys + ids
    && forall id :: id in live0 ==> live[id] == live0[id]
  }

  lemma OwnsMore(live: Blocks, live0: Blocks, ids: set<int>, id: int, b: Block)
    requires Owns(live, live0, ids) && id !in live
    ensures Owns(live[id := b], live0, ids + {id})
  {
  }

  lemma OwnsLess(live: Blocks, live0: Blocks, ids: set<int>, id: int)
    requires Owns(live, live0, ids) && id in ids
    ensures id in live && Owns(live - {id}, live0, ids - {id})
  {
    assert (live - {id}).Keys == live0.Keys + (ids - {id});
  }

  lemma OwnsNothing(live: Blocks, live0: Blocks)
    requires Owns(live, live0, {})
    ensures live == live0
  {
    assert live.Keys == live0.Keys;
    assert forall id :: id in live ==> id in live0 && live[id] == live0[id];
  }

  /** A segment lies in one of the blocks. */
  ghost predicate Contained(live: Blocks, ids: set<int>, base: int, p: Phdr) {
    exists id :: id in ids && id in live && Inside(live[id], base + p.vaddr, Span(p))
  }

  /** The segment of header `i` is in place. */
  ghost predicate Placed(live: Blocks, ids: set<int>, mem: map<int, Byte>, base: int, p: Phdr, data: seq<Byte>) {
    Contained(live, ids, base, p) && SegmentLoaded(mem, base, p, data)
  }

  /**
   If segments do not meet: all text segments among the first `t` headers and all data segments
   among the first `d`.
   */
  ghost predicate AllPlaced(live: Blocks, ids: set<int>, mem: map<int, Byte>, base: int, phdrs: seq<Phdr>,
                            data: seq<Byte>, t: nat, d: nat) {
    Layout(phdrs, |data|) ==>
      && (forall i :: 0 <= i < t && i < |phdrs| && InText(phdrs, i) ==> Placed(live, ids, mem, base, phdrs[i], data))
      && (forall i :: 0 <= i < d && i < |phdrs| && InData(phdrs, i) ==> Placed(live, ids, mem, base, phdrs[i], data))
  }

  lemma PlacedCopy(live: Blocks, ids: set<int>, mem: map<int, Byte>, base: int, p: Phdr, q: Phdr, data: seq<Byte>)
    requires p.filesz <= p.memsz && p.offset + p.filesz <= |data|
    ensures Contained(live, ids, base, p) ==> Placed(live, ids, WithSegment(mem, base, p, data), base, p, data)
    ensures Placed(live, ids, mem, base, q, data) && Apart(p, q) ==>
              Placed(live, ids, WithSegment(mem, base, p, data), base, q, data)
  {
    hide Contained, SegmentLoaded, WithSegment;
    WithSegmentLoaded(mem, base, p, q, data);
  }

  /** What a reader of the memory finds: the bytes of the file, and zeros behind them. */
  lemma PlacedReads(live: Blocks, ids: set<int>, mem: map<int, Byte>, base: int, p: Phdr, data: seq<Byte>, k: nat)
    requires Placed(live, ids, mem, base, p, data) && k < p.memsz
    ensures base + p.vaddr + k in mem
    ensures k < p.filesz ==> p.offset + k < |data| && mem[base + p.vaddr + k] == data[p.offset + k]
    ensures k >= p.filesz ==> mem[base + p.vaddr + k] == 0
    ensures exists id :: id in ids && id in live && live[id].base <= base + p.vaddr + k < live[id].base + live[id].size
  {
    var id :| id in ids && id in live && Inside(live[id], base + p.vaddr, Span(p));
    assert live[id].base <= base + p.vaddr + k < live[id].base + live[id].size;
  }

  /** One more segment copied. */
  lemma PlacedStep(live: Blocks, ids: set<int>, mem: map<int, Byte>, base: int, phdrs: seq<Phdr>, data: seq<Byte>,
                   t: nat, d: nat, i: nat)
    requires AllPlaced(live, ids, mem, base, phdrs, data, t, d)
    requires i < |phdrs| && phdrs[i].load && Contained(live, ids, base, phdrs[i])
    requires phdrs[i].offset + phdrs[i].filesz <= |data|
    requires (InText(phdrs, i) && i == t) || (InData(phdrs, i) && i == d)
    ensures AllPlaced(live, ids, WithSegment(mem, base, phdrs[i], data), base, phdrs, data,
                      if i == t && InText(phdrs, i) then t + 1 else t, if i == d && InData(phdrs, i) then d + 1 else d)
  {
    hide Contained, SegmentLoaded, WithSegment, Placed, RxEnd, DataEnd;
    var mem' := WithSegment(mem, base, phdrs[i], data);
    if !Layout(phdrs, |data|) {
      return;
    }
    forall j | 0 <= j < |phdrs| && phdrs[j].load && (j == i || Placed(live, ids, mem, base, phdrs[j], data))
      ensures Placed(live, ids, mem', base, phdrs[j], data)
    {
      PlacedCopy(live, ids, mem, base, phdrs[i], phdrs[j], data);
    }
  }

  /** A new block behind everything that is in place. */
  lemma PlacedAlloc(live: Blocks, ids: set<int>, mem: map<int, Byte>, base: int, p: Phdr, data: seq<Byte>,
                    id: int, b: Block, mem': map<int, Byte>)
    requires Placed(live, ids, mem, base, p, data) && id !in live && base + p.vaddr + p.memsz <= b.base
    requires KeptOutside(mem, mem', b)
    ensures Placed(live[id := b], ids + {id}, mem', base, p, data)
  {
    hide ByteAt;
  }

  /** Blocks end at or behind the segments they are for. */
  lemma {:induction false} EndBehind(phdrs: seq<Phdr>, size: nat, n: nat, i: nat)
    requires Layout(phdrs, size) && n <= |phdrs| && i < |phdrs|
    requires InText(phdrs, i) || (InData(phdrs, i) && i < n)
    ensures phdrs[i].vaddr + phdrs[i].memsz <= DataEnd(phdrs, n)
  {
    hide RxEnd, RxAlign;
    if n > 0 {
      if InText(phdrs, i) || i < n - 1 {
        EndBehind(phdrs, size, n - 1, i);
      }
    }
  }

  lemma AllPlacedAlloc(live: Blocks, ids: set<int>, mem: map<int, Byte>, base: int, phdrs: seq<Phdr>, data: seq<Byte>,
                       d: nat, id: int, b: Block, mem': map<int, Byte>)
    requires d <= |phdrs| && AllPlaced(live, ids, mem, base, phdrs, data, |phdrs|, d)
    requires id !in live && b.base == base + DataEnd(phdrs, d)
    requires KeptOutside(mem, mem', b)
    ensures AllPlaced(live[id := b], ids + {id}, mem', base, phdrs, data, |phdrs|, d)
  {
    hide Placed, Layout, InText, InData, DataEnd, KeptOutside;
    if !Layout(phdrs, |data|) {
      return;
    }
    forall i | 0 <= i < |phdrs| && (InText(phdrs, i) || (InData(phdrs, i) && i < d))
      ensures Placed(live[id := b], ids + {id}, mem', base, phdrs[i], data)
    {
      EndBehind(phdrs, |data|, d, i);
      PlacedAlloc(live, ids, mem, base, phdrs[i], data, id, b, mem');
    }
  }

  /** The blocks a module would free: data blocks, and text and patch block if there are any. */
  function HeldIds(patchId: int, textId: int, dataIds: seq<int>): set<int> {
    (set i | 0 <= i < |dataIds| :: dataIds[i])
    + (if textId > 0 then {textId} else {}) + (if patchId > 0 then {patchId} else {})
  }

  /** No block is held twice. */
  ghost predicate HeldOnce(patchId: int, textId: int, dataIds: seq<int>) {
    && (forall i, j :: 0 <= i < j < |dataIds| ==> dataIds[i] != dataIds[j])
    && (forall i :: 0 <= i < |dataIds| ==> 0 < dataIds[i] && dataIds[i] != textId && dataIds[i] != patchId)
    && (0 < textId ==> textId != patchId)
  }

  /** Headers the loader accepts: executable code and at most four data segments. */
  predicate Mappable(phdrs: seq<Phdr>) {
    RxEnd(phdrs, |phdrs|) != 0 && DataCount(phdrs, |phdrs|) <= 4
  }

  lemma Refused(before: seq<Refusal>, res: int, good: bool, code: int)
    requires res < 0
    ensures Answered(before, before + [AllocFailed(res)], res, good, code)
  {
  }

  /** The modules that have been loaded, in load order. */
  class ModuleList {
    var modules: seq<Module>

    constructor ()
      ensures modules == []
    {
      modules := [];
    }

    method Append(m: Module)
      modifies this
      ensures modules == old(modules) + [m]
    {
      modules := modules + [m];
    }
  }

  class Module {
    const kernel: Kernel
    var patchId: int
    var textId: int
    var dataIds: seq<int>
    var patchBase: int
    var patchSize: nat
    var textBase: int
    var textSize: nat

    /** What is left of the text block behind the executable segment. */
    var caveBase: int
    var caveSize: Word

    /** Where the next data block goes. */
    var dataAddr: int

    /** The blocks the module holds have come to `live0`. */
    ghost predicate Holding(live0: Blocks)
      reads this, kernel
    {
      && kernel.Valid() && HeldOnce(patchId, textId, dataIds)
      && Owns(kernel.live, live0, HeldIds(patchId, textId, dataIds))
    }

    /** Where the load puts the patch block, the text block and the cave. */
    ghost predicate Arranged(phdrs: seq<Phdr>, loadAddr: nat)
      reads this
    {
      && textBase == loadAddr && textSize == RxSize(phdrs)
      && patchSize == Align(PATCH_SZ, RxAlign(phdrs, |phdrs|)) && patchBase == loadAddr - patchSize
      && caveBase == Align(loadAddr + RxEnd(phdrs, |phdrs|), 4) && caveSize == Wrap(loadAddr + RxSize(phdrs) - caveBase)
    }

    /** memset of the module. */
    constructor (kernel: Kernel)
      requires kernel.Valid()
      ensures this.kernel == kernel && patchId == 0 && textId == 0 && dataIds == [] && Holding(kernel.live)
    {
      this.kernel := kernel;
      patchId, textId, dataIds := 0, 0, [];
      patchBase, patchSize, textBase, textSize, dataAddr := 0, 0, 0, 0, 0;
      caveBase, caveSize := 0, 0;
      new;
      assert HeldIds(0, 0, []) == {};
    }

    /** The end of the executable image and its alignment, from the headers. */
    static method Extent(phdrs: seq<Phdr>) returns (end: nat, align: nat)
      ensures end == RxEnd(phdrs, |phdrs|) && align == RxAlign(phdrs, |phdrs|)
    {
      end, align := 0, DEFAULT_ALIGN;
      for i := 0 to |phdrs|
        invariant end == RxEnd(phdrs, i) && align == RxAlign(phdrs, i)
      {
        if phdrs[i].load && phdrs[i].exec {
          end := phdrs[i].vaddr + phdrs[i].memsz;
          if phdrs[i].align != 0 {
            align := phdrs[i].align;
          }
        }
      }
    }

    method AllocPatch(base: int, size: nat, ghost live0: Blocks) returns (res: int)
      requires Holding(live0) && patchId == 0 && textId == 0 && dataIds == []
      modifies this`patchId, this`patchBase, this`patchSize, kernel`live, kernel`nextId, kernel`mem, kernel`refusals
      ensures Holding(live0) && (res >= 0 ==> 0 < patchId && patchBase == base && patchSize == size)
      ensures kernel.refusals == if res < 0 then old(kernel.refusals) + [AllocFailed(res)] else old(kernel.refusals)
    {
      assert HeldIds(0, 0, []) == {};
      ghost var live := kernel.live;
      patchSize := size;
      res := kernel.Alloc(base, size);
      patchId := res;
      if res >= 0 {
        patchBase := base;
        OwnsMore(live, live0, {}, res, Block(base, size));
        assert HeldIds(res, 0, []) == {} + {res};
      } else {
        assert HeldIds(res, 0, []) == {};
      }
    }

    method AllocText(base: nat, size: nat, end: nat, ghost live0: Blocks) returns (res: int)
      requires Holding(live0) && 0 < patchId && textId == 0 && dataIds == []
      modifies this`textId, this`textBase, this`textSize, this`caveBase, this`caveSize, this`dataAddr
      modifies kernel`live, kernel`nextId, kernel`mem, kernel`refusals
      ensures Holding(live0)
      ensures kernel.refusals == if res < 0 then old(kernel.refusals) + [AllocFailed(res)] else old(kernel.refusals)
      ensures res >= 0 ==>
                textSize == size && caveBase == Align(base + end, 4) && caveSize == Wrap(base + size - caveBase)
      ensures res >= 0 ==> 0 < textId && textBase == base && dataAddr == base + size
                           && textId in kernel.live && kernel.live[textId] == Block(base, size)
    {
      assert patchId in kernel.live by {
        assert patchId in HeldIds(patchId, 0, []);
      }
      hide Align, Wrap, Owns, HeldIds;
      HeldText(patchId, 0);
      ghost var live := kernel.live;
      res := kernel.Alloc(base, size);
      textId := res;
      if res >= 0 {
        textBase, textSize, dataAddr := base, size, base + size;
        caveBase := Align(base + end, 4);
        caveSize := Wrap(base + size - caveBase);
        OwnsMore(live, live0, {patchId}, res, Block(base, size));
      }
      HeldText(patchId, res);
    }

    static lemma HeldText(patchId: int, textId: int)
      requires 0 < patchId
      ensures HeldIds(patchId, textId, []) == {patchId} + if textId > 0 then {textId} else {}
    {
    }

    method AllocData(size: nat, ghost live0: Blocks) returns (res: int)
      requires Holding(live0) && 0 < patchId && 0 < textId && |dataIds| < MAX_DATA_SEG
      modifies this`dataIds, this`dataAddr, kernel`live, kernel`nextId, kernel`mem, kernel`refusals
      ensures Holding(live0)
      ensures kernel.refusals == if res < 0 then old(kernel.refusals) + [AllocFailed(res)] else old(kernel.refusals)
      ensures res < 0 ==> dataIds == old(dataIds)
      ensures res >= 0 ==>
                dataAddr == old(dataAddr) + size && dataIds == old(dataIds) + [res] && res !in old(kernel.live)
                           && kernel.live == old(kernel.live)[res := Block(old(dataAddr), size)]
      ensures HeldIds(patchId, textId, dataIds)
           == HeldIds(patchId, textId, old(dataIds)) + if res >= 0 then {res} else {}
      ensures KeptOutside(old(kernel.mem), kernel.mem, Block(old(dataAddr), size))
    {
      ghost var live, ids := kernel.live, HeldIds(patchId, textId, dataIds);
      res := kernel.Alloc(dataAddr, size);
      if res >= 0 {
        HeldMore(patchId, textId, dataIds, res);
        OwnsMore(live, live0, ids, res, Block(dataAddr, size));
        dataIds := dataIds + [res];
        dataAddr := dataAddr + size;
      }
    }

    static lemma HeldMore(patchId: int, textId: int, dataIds: seq<int>, id: int)
      requires HeldOnce(patchId, textId, dataIds) && id > 0 && id !in HeldIds(patchId, textId, dataIds)
      ensures HeldOnce(patchId, textId, dataIds + [id])
      ensures HeldIds(patchId, textId, dataIds + [id]) == HeldIds(patchId, textId, dataIds) + {id}
    {
      var more := dataIds + [id];
      assert more[|dataIds|] == id;
      forall i | 0 <= i < |dataIds|
        ensures more[i] == dataIds[i] && dataIds[i] in HeldIds(patchId, textId, dataIds)
      {
      }
      forall x | x in HeldIds(patchId, textId, dataIds) + {id}
        ensures x in HeldIds(patchId, textId, more)
      {
        if i :| 0 <= i < |dataIds| && dataIds[i] == x {
          assert more[i] == x;
        }
      }
    }

    // ----- release

    static lemma HeldTail(patchId: int, textId: int, dataIds: seq<int>)
      requires HeldOnce(patchId, textId, dataIds) && dataIds != []
      ensures dataIds[0] in HeldIds(patchId, textId, dataIds) && HeldOnce(patchId, textId, dataIds[1..])
      ensures HeldIds(patchId, textId, dataIds) - {dataIds[0]} == HeldIds(patchId, textId, dataIds[1..])
    {
      var id, rest := dataIds[0], dataIds[1..];
      forall x | x in HeldIds(patchId, textId, dataIds) && x != id
        ensures x in HeldIds(patchId, textId, rest)
      {
        if i :| 0 <= i < |dataIds| && dataIds[i] == x {
          assert rest[i - 1] == x;
        }
      }
      forall x | x in HeldIds(patchId, textId, rest)
        ensures x in HeldIds(patchId, textId, dataIds) && x != id
      {
        if i :| 0 <= i < |rest| && rest[i] == x {
          assert dataIds[i + 1] == x;
        }
      }
    }

    method FreeData(ghost live0: Blocks)
      requires Holding(live0)
      modifies kernel`live
      ensures kernel.Valid() && Owns(kernel.live, live0, HeldIds(patchId, textId, []))
    {
      var i := 0;
      assert dataIds[0..] == dataIds;
      hide HeldOnce, HeldIds, Owns;
      while i < |dataIds|
        invariant 0 <= i <= |dataIds| && kernel.Valid() && HeldOnce(patchId, textId, dataIds[i..])
        invariant Owns(kernel.live, live0, HeldIds(patchId, textId, dataIds[i..]))
      {
        HeldTail(patchId, textId, dataIds[i..]);
        assert dataIds[i..][1..] == dataIds[i + 1..];
        OwnsLess(kernel.live, live0, HeldIds(patchId, textId, dataIds[i..]), dataIds[i]);
        kernel.Free(dataIds[i]);
        i := i + 1;
      }
      assert dataIds[i..] == [];
    }

    /** The way out of every failure: all blocks of the module and the staging block are freed, each once. */
    method Release(so: int, ghost live0: Blocks)
      requires Holding(live0) && so in live0
      modifies kernel`live
      ensures kernel.Valid() && kernel.live == live0 - {so}
    {
      FreeData(live0);
      assert HeldIds(patchId, textId, []) - {textId} == HeldIds(patchId, 0, []);
      assert HeldIds(patchId, 0, []) - {patchId} == {};
      hide Owns;
      if textId > 0 {
        OwnsLess(kernel.live, live0, HeldIds(patchId, textId, []), textId);
        kernel.Free(textId);
      }
      assert HeldIds(patchId, textId, []) - {textId} == HeldIds(patchId, textId, []) || textId > 0;
      if patchId > 0 {
        OwnsLess(kernel.live, live0, HeldIds(patchId, 0, []), patchId);
        kernel.Free(patchId);
      }
      OwnsNothing(kernel.live, live0);
      kernel.Free(so);
    }

    // ----- copying

    /** The zeros behind the file part, then the file part. */
    method CopySegment(p: Phdr, data: seq<Byte>, ghost ids: set<int>)
      requires p.offset + p.filesz <= |data| && Contained(kernel.live, ids, textBase, p)
      modifies kernel`mem
      ensures kernel.mem == WithSegment(old(kernel.mem), textBase, p, data)
    {
      ghost var id :| id in ids && id in kernel.live && Inside(kernel.live[id], textBase + p.vaddr, Span(p));
      var dst := textBase + p.vaddr;
      if p.memsz > p.filesz {
        assert Inside(kernel.live[id], dst + p.filesz, p.memsz - p.filesz);
        kernel.Copy(dst + p.filesz, Zeros(p.memsz - p.filesz));
      }
      assert Inside(kernel.live[id], dst, p.filesz);
      kernel.Copy(dst, data[p.offset..p.offset + p.filesz]);
    }

    /** Every segment of the image in one piece goes to its place in the text block. */
    method CopyText(phdrs: seq<Phdr>, data: seq<Byte>, rxEnd: nat)
      requires Bounded(phdrs, |data|) && rxEnd == RxEnd(phdrs, |phdrs|)
      requires 0 < textId && textId in kernel.live && kernel.live[textId] == Block(textBase, RxSize(phdrs))
      modifies kernel`mem
      ensures AllPlaced(kernel.live, {textId}, kernel.mem, textBase, phdrs, data, |phdrs|, 0)
    {
      var i := 0;
      hide Placed, WithSegment, RxEnd;
      while i < |phdrs|
        invariant 0 <= i <= |phdrs|
        invariant AllPlaced(kernel.live, {textId}, kernel.mem, textBase, phdrs, data, i, 0)
      {
        if phdrs[i].load && phdrs[i].vaddr < rxEnd {
          InsideText(kernel.live, textId, textBase, phdrs, |data|, i);
          PlacedStep(kernel.live, {textId}, kernel.mem, textBase, phdrs, data, i, 0, i);
          CopySegment(phdrs[i], data, {textId});
        }
        i := i + 1;
      }
    }

    static lemma InsideText(live: Blocks, id: int, base: int, phdrs: seq<Phdr>, size: nat, i: nat)
      requires Bounded(phdrs, size) && id in live && live[id] == Block(base, RxSize(phdrs)) && i < |phdrs|
      requires InText(phdrs, i)
      ensures Contained(live, {id}, base, phdrs[i])
    {
      assert Inside(live[id], base + phdrs[i].vaddr, Span(phdrs[i]));
    }

    static lemma InsideData(live: Blocks, id: int, ids: set<int>, base: int, phdrs: seq<Phdr>, size: nat, i: nat)
      requires Bounded(phdrs, size) && i < |phdrs| && InData(phdrs, i) && id in ids && id in live
      requires live[id] == Block(base + DataEnd(phdrs, i), BlockSize(phdrs[i], DataEnd(phdrs, i)))
      ensures Contained(live, ids, base, phdrs[i])
    {
      DataEndNext(phdrs, i);
      hide DataEnd, Effective;
      assert Inside(live[id], base + phdrs[i].vaddr, Span(phdrs[i]));
    }

    static lemma Widen(live: Blocks, ids: set<int>, more: set<int>, mem: map<int, Byte>, base: int, phdrs: seq<Phdr>,
                       data: seq<Byte>, t: nat)
      requires AllPlaced(live, ids, mem, base, phdrs, data, t, 0) && ids <= more
      ensures AllPlaced(live, more, mem, base, phdrs, data, t, 0)
    {
      hide SegmentLoaded, InText, InData;
    }

    /** The two copies for data segment `i` will put it in place. */
    static ghost predicate WillBePlaced(live: Blocks, ids: set<int>, mem: map<int, Byte>, base: int, phdrs: seq<Phdr>,
                                        data: seq<Byte>, i: nat)
    {
      && i < |phdrs| && phdrs[i].offset + phdrs[i].filesz <= |data|
      && Contained(live, ids, base, phdrs[i])
      && AllPlaced(live, ids, WithSegment(mem, base, phdrs[i], data), base, phdrs, data, |phdrs|, i + 1)
    }

    /** After the block has come. */
    static lemma DataStep(live: Blocks, ids: set<int>, mem: map<int, Byte>, base: int, phdrs: seq<Phdr>,
                          data: seq<Byte>, i: nat, id: int, b: Block, mem': map<int, Byte>)
      requires Bounded(phdrs, |data|) && i < |phdrs| && InData(phdrs, i)
      requires AllPlaced(live, ids, mem, base, phdrs, data, |phdrs|, i) && id !in live
      requires b == Block(base + DataEnd(phdrs, i), BlockSize(phdrs[i], DataEnd(phdrs, i))) && KeptOutside(mem, mem', b)
      ensures WillBePlaced(live[id := b], ids + {id}, mem', base, phdrs, data, i)
    {
      assert phdrs[i].offset + phdrs[i].filesz <= |data|;
      hide AllPlaced, WithSegment, DataEnd, BlockSize, Contained, Layout, Bounded, KeptOutside;
      AllPlacedAlloc(live, ids, mem, base, phdrs, data, i, id, b, mem');
      InsideData(live[id := b], id, ids + {id}, base, phdrs, |data|, i);
      PlacedStep(live[id := b], ids + {id}, mem', base, phdrs, data, |phdrs|, i, i);
    }

    static lemma DataEndNext(phdrs: seq<Phdr>, i: nat)
      requires i < |phdrs| && InData(phdrs, i)
      ensures DataEnd(phdrs, i + 1) == DataEnd(phdrs, i) + BlockSize(phdrs[i], DataEnd(phdrs, i))
    {
    }

    /** A block for one data segment, in which the copies will put it in place. */
    method AllocFor(phdrs: seq<Phdr>, data: seq<Byte>, i: nat, ghost live0: Blocks) returns (res: int)
      requires Holding(live0) && 0 < patchId && 0 < textId && |dataIds| < MAX_DATA_SEG
      requires Bounded(phdrs, |data|) && i < |phdrs| && InData(phdrs, i) && dataAddr == textBase + DataEnd(phdrs, i)
      requires AllPlaced(kernel.live, HeldIds(patchId, textId, dataIds), kernel.mem, textBase, phdrs, data, |phdrs|, i)
      modifies this`dataIds, this`dataAddr, kernel`live, kernel`nextId, kernel`mem, kernel`refusals
      ensures Holding(live0)
      ensures kernel.refusals == if res < 0 then old(kernel.refusals) + [AllocFailed(res)] else old(kernel.refusals)
      ensures res >= 0 ==> |dataIds| == old(|dataIds|) + 1 && dataAddr == textBase + DataEnd(phdrs, i + 1)
      ensures res >= 0 ==>
                WillBePlaced(kernel.live, HeldIds(patchId, textId, dataIds), kernel.mem, textBase, phdrs, data, i)
    {
      ghost var live, ids, mem := kernel.live, HeldIds(patchId, textId, dataIds), kernel.mem;
      hide *;
      DataEndNext(phdrs, i);
      ghost var b := Block(dataAddr, BlockSize(phdrs[i], DataEnd(phdrs, i)));
      res := AllocData(BlockSize(phdrs[i], dataAddr - textBase), live0);
      if res >= 0 {
        DataStep(live, ids, mem, textBase, phdrs, data, i, res, b, kernel.mem);
      }
    }

    /** One data segment: a block of its own, then the two copies. */
    method MapOne(phdrs: seq<Phdr>, data: seq<Byte>, i: nat, ghost live0: Blocks) returns (res: int)
      requires Holding(live0) && 0 < patchId && 0 < textId && |dataIds| < MAX_DATA_SEG
      requires Bounded(phdrs, |data|) && i < |phdrs| && InData(phdrs, i) && dataAddr == textBase + DataEnd(phdrs, i)
      requires AllPlaced(kernel.live, HeldIds(patchId, textId, dataIds), kernel.mem, textBase, phdrs, data, |phdrs|, i)
      modifies this`dataIds, this`dataAddr, kernel`live, kernel`nextId, kernel`mem, kernel`refusals
      ensures Holding(live0)
      ensures kernel.refusals == if res < 0 then old(kernel.refusals) + [AllocFailed(res)] else old(kernel.refusals)
      ensures res >= 0 ==> |dataIds| == old(|dataIds|) + 1 && dataAddr == textBase + DataEnd(phdrs, i + 1)
      ensures res >= 0 ==>
                AllPlaced(kernel.live, HeldIds(patchId, textId, dataIds), kernel.mem, textBase, phdrs, data,
                          |phdrs|, i + 1)
    {
      hide HeldOnce, HeldIds, Owns, AllPlaced, WithSegment, DataEnd, Contained, Bounded, InData;
      res := AllocFor(phdrs, data, i, live0);
      if res >= 0 {
        CopySegment(phdrs[i], data, HeldIds(patchId, textId, dataIds));
      }
    }

    /** The data segments in order, at most four. */
    method MapData(phdrs: seq<Phdr>, data: seq<Byte>, rxEnd: nat, ghost live0: Blocks) returns (res: int)
      requires Holding(live0) && 0 < patchId && 0 < textId && dataIds == []
      requires Bounded(phdrs, |data|) && rxEnd == RxEnd(phdrs, |phdrs|) && dataAddr == textBase + RxSize(phdrs)
      requires AllPlaced(kernel.live, HeldIds(patchId, textId, dataIds), kernel.mem, textBase, phdrs, data, |phdrs|, 0)
      modifies this`dataIds, this`dataAddr, kernel`live, kernel`nextId, kernel`mem, kernel`refusals
      ensures Holding(live0) && res <= 0
      ensures res == 0 ==>
                AllPlaced(kernel.live, HeldIds(patchId, textId, dataIds), kernel.mem, textBase, phdrs, data,
                          |phdrs|, |phdrs|)
      ensures Answered(old(kernel.refusals), kernel.refusals, res, DataCount(phdrs, |phdrs|) <= MAX_DATA_SEG, -1)
      ensures res == 0 ==> |dataIds| == DataCount(phdrs, |phdrs|)
    {
      res := 0;
      var i := 0;
      hide HeldOnce, HeldIds, Owns, Bounded, RxSize, RxEnd, AllPlaced;
      while i < |phdrs|
        invariant 0 <= i <= |phdrs| && Holding(live0) && 0 < patchId && 0 < textId
        invariant kernel.refusals == old(kernel.refusals)
        invariant |dataIds| == DataCount(phdrs, i) <= MAX_DATA_SEG && dataAddr == textBase + DataEnd(phdrs, i)
        invariant AllPlaced(kernel.live, HeldIds(patchId, textId, dataIds), kernel.mem, textBase, phdrs, data,
                            |phdrs|, i)
      {
        if phdrs[i].load && phdrs[i].vaddr >= rxEnd {
          if |dataIds| >= MAX_DATA_SEG {
            DataCountMonotone(phdrs, i + 1, |phdrs|);
            return -1;
          }
          res := MapOne(phdrs, data, i, live0);
          if res < 0 {
            return;
          }
          res := 0;
        } else {
          PlacedSkip(kernel.live, HeldIds(patchId, textId, dataIds), kernel.mem, textBase, phdrs, data, i);
        }
        i := i + 1;
      }
    }

    static lemma PlacedSkip(live: Blocks, ids: set<int>, mem: map<int, Byte>, base: int, phdrs: seq<Phdr>,
                            data: seq<Byte>, d: nat)
      requires d < |phdrs| && !InData(phdrs, d) && AllPlaced(live, ids, mem, base, phdrs, data, |phdrs|, d)
      ensures AllPlaced(live, ids, mem, base, phdrs, data, |phdrs|, d + 1)
    {
      hide Placed;
    }

    static lemma {:induction false} DataCountMonotone(phdrs: seq<Phdr>, n: nat, m: nat)
      requires n <= m <= |phdrs|
      ensures DataCount(phdrs, n) <= DataCount(phdrs, m)
    {
      if n < m {
        DataCountMonotone(phdrs, n, m - 1);
      }
    }

    // ----- the whole load

    static lemma FreedStaging(live: Blocks, live0: Blocks, ids: set<int>, so: int, mem: map<int, Byte>, base: int,
                              phdrs: seq<Phdr>, data: seq<Byte>)
      requires Owns(live, live0, ids) && so in live0
      requires AllPlaced(live, ids, mem, base, phdrs, data, |phdrs|, |phdrs|)
      ensures Owns(live - {so}, live0 - {so}, ids)
      ensures Layout(phdrs, |data|) ==>
                forall i :: 0 <= i < |phdrs| && phdrs[i].load ==> Placed(live - {so}, ids, mem, base, phdrs[i], data)
    {
      hide SegmentLoaded, RxEnd, Layout;
      assert (live - {so}).Keys == (live0 - {so}).Keys + ids;
      if !Layout(phdrs, |data|) {
        return;
      }
      forall i | 0 <= i < |phdrs| && phdrs[i].load
        ensures Placed(live - {so}, ids, mem, base, phdrs[i], data)
      {
        assert InText(phdrs, i) || InData(phdrs, i);
        assert Placed(live, ids, mem, base, phdrs[i], data);
        var id :| id in ids && id in live && Inside(live[id], base + phdrs[i].vaddr, Span(phdrs[i]));
        assert id in live - {so} && (live - {so})[id] == live[id];
      }
    }

    /** Patch and text block, the text segments, the data segments. */
    method MapAll(phdrs: seq<Phdr>, data: seq<Byte>, loadAddr: nat, ghost live0: Blocks) returns (res: int)
      requires Holding(live0) && patchId == 0 && textId == 0 && dataIds == []
      requires RxEnd(phdrs, |phdrs|) != 0 ==> Bounded(phdrs, |data|)
      modifies this, kernel`live, kernel`nextId, kernel`mem, kernel`refusals
      ensures Holding(live0) && res <= 0
      ensures Answered(old(kernel.refusals), kernel.refusals, res, Mappable(phdrs), -1)
      ensures res == 0 ==> Arranged(phdrs, loadAddr) && |dataIds| == DataCount(phdrs, |phdrs|)
      ensures res == 0 ==>
                AllPlaced(kernel.live, HeldIds(patchId, textId, dataIds), kernel.mem, textBase, phdrs, data,
                          |phdrs|, |phdrs|)
    {
      hide *;
      var rxEnd, rxAlign := Extent(phdrs);
      MappableIs(phdrs, kernel.refusals);
      if rxEnd == 0 {
        return -1;
      }
      RxSizeIs(phdrs);
      res := AllocCode(rxEnd, rxAlign, loadAddr, live0);
      if res < 0 {
        Refused(old(kernel.refusals), res, Mappable(phdrs), -1);
        return;
      }
      PlaceText(phdrs, data, rxEnd, live0);
      res := MapData(phdrs, data, rxEnd, live0);
      if res == 0 {
        ArrangedBy(phdrs, loadAddr);
      }
    }

    /** The patch block in front of the image and the text block. */
    method AllocCode(rxEnd: nat, rxAlign: nat, loadAddr: nat, ghost live0: Blocks) returns (res: int)
      requires Holding(live0) && patchId == 0 && textId == 0 && dataIds == [] && rxAlign > 0
      modifies this, kernel`live, kernel`nextId, kernel`mem, kernel`refusals
      ensures Holding(live0) && dataIds == []
      ensures kernel.refusals == if res < 0 then old(kernel.refusals) + [AllocFailed(res)] else old(kernel.refusals)
      ensures res >= 0 ==>
                var size := Align(rxEnd, rxAlign);
                && 0 < patchId && patchSize == Align(PATCH_SZ, rxAlign) && patchBase == loadAddr - patchSize
                && 0 < textId && textBase == loadAddr && textSize == size && dataAddr == loadAddr + size
                && textId in kernel.live && kernel.live[textId] == Block(loadAddr, size)
                && caveBase == Align(loadAddr + rxEnd, 4) && caveSize == Wrap(loadAddr + size - caveBase)
    {
      assert 0 <= PATCH_SZ;
      hide *;
      var size := Align(PATCH_SZ, rxAlign);
      res := AllocPatch(loadAddr - size, size, live0);
      if res < 0 {
        return;
      }
      res := AllocText(loadAddr, Align(rxEnd, rxAlign), rxEnd, live0);
    }

    static lemma MappableIs(phdrs: seq<Phdr>, refusals: seq<Refusal>)
      ensures Mappable(phdrs) <==> RxEnd(phdrs, |phdrs|) != 0 && DataCount(phdrs, |phdrs|) <= MAX_DATA_SEG
      ensures !Mappable(phdrs) ==> Answered(refusals, refusals, -1, Mappable(phdrs), -1)
    {
    }

    static lemma RxSizeIs(phdrs: seq<Phdr>)
      ensures RxSize(phdrs) == Align(RxEnd(phdrs, |phdrs|), RxAlign(phdrs, |phdrs|))
    {
    }

    lemma ArrangedBy(phdrs: seq<Phdr>, loadAddr: nat)
      requires textBase == loadAddr && textSize == RxSize(phdrs)
      requires patchSize == Align(PATCH_SZ, RxAlign(phdrs, |phdrs|)) && patchBase == loadAddr - patchSize
      requires caveBase == Align(loadAddr + RxEnd(phdrs, |phdrs|), 4)
      requires caveSize == Wrap(loadAddr + RxSize(phdrs) - caveBase)
      ensures Arranged(phdrs, loadAddr)
    {
    }

    /** The text segments, seen as lying in one of the blocks held. */
    method PlaceText(phdrs: seq<Phdr>, data: seq<Byte>, rxEnd: nat, ghost live0: Blocks)
      requires Holding(live0) && Bounded(phdrs, |data|) && rxEnd == RxEnd(phdrs, |phdrs|)
      requires 0 < textId && textId in kernel.live && kernel.live[textId] == Block(textBase, RxSize(phdrs))
      modifies kernel`mem
      ensures Holding(live0)
      ensures AllPlaced(kernel.live, HeldIds(patchId, textId, dataIds), kernel.mem, textBase, phdrs, data, |phdrs|, 0)
    {
      hide HeldOnce, Owns, AllPlaced, Bounded, RxEnd, RxSize;
      CopyText(phdrs, data, rxEnd);
      Widen(kernel.live, {textId}, HeldIds(patchId, textId, dataIds), kernel.mem, textBase, phdrs, data, |phdrs|);
    }

    /**
     _so_load: `sections` says that the five sections it needs are there. Without a refusal
     it succeeds exactly if magic number, headers and sections are as they should be.
     */
    method Load(so: int, magic: bool, phdrs: seq<Phdr>, sections: bool, data: seq<Byte>, loadAddr: nat,
                list: ModuleList)
      returns (res: int)
      requires kernel.Valid() && so in kernel.live && patchId == 0 && textId == 0 && dataIds == []
      requires magic && RxEnd(phdrs, |phdrs|) != 0 ==> Bounded(phdrs, |data|)
      modifies this, list, kernel`live, kernel`nextId, kernel`mem, kernel`refusals
      ensures kernel.Valid() && res <= 0
      ensures Answered(old(kernel.refusals), kernel.refusals, res, magic && Mappable(phdrs) && sections,
                       if magic && Mappable(phdrs) then -2 else -1)
      ensures res == 0 <==> magic && Mappable(phdrs) && sections && kernel.refusals == old(kernel.refusals)
      ensures res < 0 ==> kernel.live == old(kernel.live) - {so} && list.modules == old(list.modules)
      ensures res == 0 ==> Arranged(phdrs, loadAddr) && |dataIds| == DataCount(phdrs, |phdrs|)
                           && Owns(kernel.live, old(kernel.live) - {so}, HeldIds(patchId, textId, dataIds))
                           && list.modules == old(list.modules) + [this]
      ensures res == 0 && Layout(phdrs, |data|) ==> forall i :: 0 <= i < |phdrs| && phdrs[i].load ==>
                Placed(kernel.live, HeldIds(patchId, textId, dataIds), kernel.mem, loadAddr, phdrs[i], data)
    {
      ghost var live0 := kernel.live;
      assert HeldIds(0, 0, []) == {};
      assert Holding(live0);
      hide HeldOnce, Owns, AllPlaced, Layout, Bounded, Mappable, HeldIds, Placed, RxEnd;
      MappableIs(phdrs, kernel.refusals);
      res := -1;
      if magic {
        res := MapAll(phdrs, data, loadAddr, live0);
        if res == 0 && !sections {
          res := -2;
        }
      }
      if res < 0 {
        Release(so, live0);
        return;
      }
      FreedStaging(kernel.live, live0, HeldIds(patchId, textId, dataIds), so, kernel.mem, textBase, phdrs, data);
      StagingLives(kernel.live, live0, HeldIds(patchId, textId, dataIds), so);
      kernel.Free(so);
      list.Append(this);
    }

    static lemma StagingLives(live: Blocks, live0: Blocks, ids: set<int>, so: int)
      requires Owns(live, live0, ids) && so in live0
      ensures so in live
    {
    }
  }

  /** What the headers at the start of a file say. */
  datatype Headers = Headers(magic: bool, phdrs: seq<Phdr>, sections: bool)

  /** A file read to its end, in pieces of any size, unless a read fails or ends early. */
  method ReadAll(kernel: Kernel, fd: int, content: seq<Byte>) returns (res: int, data: seq<Byte>)
    requires kernel.Valid() && fd in kernel.files
    modifies kernel`refusals
    ensures kernel.Valid()
    ensures Answered(old(kernel.refusals), kernel.refusals, res, true, 0)
    ensures res == 0 ==> data == content
  {
    data := [];
    while |data| < |content|
      invariant |data| <= |content| && data == content[..|data|]
      invariant kernel.Valid() && kernel.refusals == old(kernel.refusals)
      decreases |content| - |data|
    {
      var got := kernel.Read(fd, |content| - |data|);
      if got <= 0 {
        return if got < 0 then got else -1, data;
      }
      data := data + content[|data|..|data| + got];
    }
    res := 0;
  }

  /** Files that hold a header and whose size fits a signed word less a page. */
  predicate Loadable(content: seq<Byte>, h: Headers) {
    52 <= |content| <= 0x7FFF_F000 && h.magic && Mappable(h.phdrs) && h.sections
  }

  /** The result for a file that is not loadable. */
  function Unloadable(content: seq<Byte>, h: Headers): int {
    if 52 <= |content| <= 0x7FFF_F000 && h.magic && Mappable(h.phdrs) then -2 else -1
  }

  /**
   so_file_load: without a refusal it succeeds exactly on a loadable file. Whatever fails, the
   file is closed and the staging block freed, once, and a load that fails leaves the live
   blocks as they were.
   */
  method FileLoad(mod: Module, content: seq<Byte>, headers: seq<Byte> -> Headers, loadAddr: nat, list: ModuleList)
    returns (res: int)
    requires mod.kernel.Valid()
    requires var h := headers(content); h.magic && RxEnd(h.phdrs, |h.phdrs|) != 0 ==> Bounded(h.phdrs, |content|)
    modifies mod, mod.kernel, list
    ensures mod.kernel.Valid() && res <= 0 && mod.kernel.files == old(mod.kernel.files)
    ensures Answered(old(mod.kernel.refusals), mod.kernel.refusals, res, Loadable(content, headers(content)),
                     Unloadable(content, headers(content)))
    ensures res == 0 <==> Loadable(content, headers(content)) && mod.kernel.refusals == old(mod.kernel.refusals)
    ensures res < 0 ==> mod.kernel.live == old(mod.kernel.live) && list.modules == old(list.modules)
    ensures res == 0 ==> Owns(mod.kernel.live, old(mod.kernel.live), HeldIds(mod.patchId, mod.textId, mod.dataIds))
    ensures res == 0 ==> mod.Arranged(headers(content).phdrs, loadAddr) && list.modules == old(list.modules) + [mod]
    ensures res == 0 && Layout(headers(content).phdrs, |content|) ==>
              forall i :: 0 <= i < |headers(content).phdrs| && headers(content).phdrs[i].load ==>
              Placed(mod.kernel.live, HeldIds(mod.patchId, mod.textId, mod.dataIds), mod.kernel.mem, loadAddr,
                     headers(content).phdrs[i], content)
  {
    hide Owns, Layout, Bounded, RxEnd, HeldIds, Placed, Mappable;
    mod.patchId, mod.textId, mod.dataIds := 0, 0, [];
    ghost var live := mod.kernel.live;
    var fd := mod.kernel.Open();
    if fd < 0 {
      return fd;
    }
    var so;
    res, so := Stage(mod.kernel, fd, |content|);
    if res < 0 {
      mod.kernel.Close(fd);
      return;
    }
    var data;
    res, data := ReadAll(mod.kernel, fd, content);
    mod.kernel.Close(fd);
    if res < 0 {
      mod.kernel.Free(so);
      assert mod.kernel.live == live;
      return;
    }
    var h := headers(data);
    assert mod.kernel.live - {so} == live;
    res := mod.Load(so, h.magic, h.phdrs, h.sections, data, loadAddr, list);
  }

  /** The staging block for an open file of `size` bytes; nothing is left if any step fails. */
  method Stage(kernel: Kernel, fd: int, size: nat) returns (res: int, so: int)
    requires kernel.Valid() && fd in kernel.files
    modifies kernel`live, kernel`nextId, kernel`mem, kernel`refusals
    ensures kernel.Valid()
    ensures Answered(old(kernel.refusals), kernel.refusals, res, 52 <= size <= 0x7FFF_F000, -1)
    ensures res < 0 ==> kernel.live == old(kernel.live)
    ensures res == 0 ==> so !in old(kernel.live) && so in kernel.live && kernel.live - {so} == old(kernel.live)
  {
    so := 0;
    var end := kernel.Seek(fd, size);
    if end < HEADER_SIZE || end > FILE_MAX {
      return -1, 0;
    }
    var start := kernel.Seek(fd, 0);
    if start < 0 {
      return -1, 0;
    }
    var base: int := *;
    so := kernel.Alloc(base, Align(size, 0x1000));
    if so < 0 {
      return so, so;
    }
    assert kernel.live - {so} == old(kernel.live);
    var rc := kernel.BlockBase(so);
    if rc < 0 {
      kernel.Free(so);
      return rc, so;
    }
    res := 0;
  }
}
