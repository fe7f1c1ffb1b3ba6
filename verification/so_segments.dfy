/**
 The segments of an image: where the loader puts them, and what their memory holds
 once the zeros and the file bytes are copied.
 */
module SoSegments {
  import opened Basics

  const DEFAULT_ALIGN := 0x1000

  /** A program header; `load` is PT_LOAD, `exec` is PF_X. */
  datatype Phdr = Phdr(load: bool, exec: bool, offset: nat, vaddr: nat, filesz: nat, memsz: nat, align: nat)

  /** ALIGN_MEM for a power of two, without wrap-around. */
  function Align(x: nat, a: nat): (r: nat)
    requires a > 0
    ensures x <= r < x + a
  {
    Remainder(x + a - 1, a);
    (x + a - 1) / a * a
  }

  lemma Remainder(x: nat, a: nat)
    requires a > 0
    ensures x == x / a * a + x % a && x / a * a >= 0
  {
  }

  /** The only multiple of `a` in reach. */
  lemma AlignUnique(x: nat, a: nat, q: nat)
    requires a > 0 && x <= q * a < x + a
    ensures Align(x, a) == q * a
  {
    var d := (x + a - 1) / a;
    assert Align(x, a) == d * a;
    if q > d {
      Larger(q, d, a);
    } else if q < d {
      Larger(d, q, a);
    }
  }

  lemma {:induction false} Larger(q: nat, d: nat, a: nat)
    requires q > d
    ensures q * a >= d * a + a
  {
    assert q * a == (q - 1) * a + a;
    if q - 1 > d {
      Larger(q - 1, d, a);
    }
  }

  lemma AlignIsMultiple(x: nat, a: nat) returns (q: nat)
    requires a > 0
    ensures Align(x, a) == q * a
  {
    q := (x + a - 1) / a;
  }

  function Effective(align: nat): (a: nat)
    ensures a > 0
  {
    if align != 0 then align else DEFAULT_ALIGN
  }

  // ----- the read-execute image

  predicate Exec(p: Phdr) {
    p.load && p.exec
  }

  /** The end of the last executable segment among the first `n`, 0 if there is none. */
  function RxEnd(phdrs: seq<Phdr>, n: nat): nat
    requires n <= |phdrs|
  {
    if n == 0 then 0
    else if Exec(phdrs[n - 1]) then phdrs[n - 1].vaddr + phdrs[n - 1].memsz
    else RxEnd(phdrs, n - 1)
  }

  function RxAlign(phdrs: seq<Phdr>, n: nat): (a: nat)
    requires n <= |phdrs|
    ensures a > 0
  {
    if n == 0 then DEFAULT_ALIGN
    else if Exec(phdrs[n - 1]) && phdrs[n - 1].align != 0 then phdrs[n - 1].align
    else RxAlign(phdrs, n - 1)
  }

  /** The last executable PT_LOAD gives the end, the last one that names an alignment the alignment. */
  lemma {:induction false} ExtentOf(phdrs: seq<Phdr>, n: nat, i: nat)
    requires n <= |phdrs| && i < n && phdrs[i].load && phdrs[i].exec
    ensures (forall j :: i < j < n ==> !(phdrs[j].load && phdrs[j].exec)) ==>
              RxEnd(phdrs, n) == phdrs[i].vaddr + phdrs[i].memsz
    ensures phdrs[i].align != 0 && (forall j :: i < j < n && phdrs[j].load && phdrs[j].exec ==> phdrs[j].align == 0) ==>
              RxAlign(phdrs, n) == phdrs[i].align
  {
    if i < n - 1 {
      ExtentOf(phdrs, n - 1, i);
    }
  }

  /** Without executable code there is no image, without a named alignment it is a page. */
  lemma {:induction false} ExtentNone(phdrs: seq<Phdr>, n: nat)
    requires n <= |phdrs|
    ensures (forall j :: 0 <= j < n ==> !(phdrs[j].load && phdrs[j].exec)) ==> RxEnd(phdrs, n) == 0
    ensures (forall j :: 0 <= j < n && phdrs[j].load && phdrs[j].exec ==> phdrs[j].align == 0) ==>
              RxAlign(phdrs, n) == 0x1000
  {
    if n > 0 {
      ExtentNone(phdrs, n - 1);
    }
  }

  function RxSize(phdrs: seq<Phdr>): nat {
    Align(RxEnd(phdrs, |phdrs|), RxAlign(phdrs, |phdrs|))
  }

  /** Part of the image in one piece. */
  predicate InText(phdrs: seq<Phdr>, i: nat)
    requires i < |phdrs|
  {
    phdrs[i].load && phdrs[i].vaddr < RxEnd(phdrs, |phdrs|)
  }

  /** A data segment with a block of its own. */
  predicate InData(phdrs: seq<Phdr>, i: nat)
    requires i < |phdrs|
  {
    phdrs[i].load && phdrs[i].vaddr >= RxEnd(phdrs, |phdrs|)
  }

  /** How many data segments there are among the first `n` headers. */
  function DataCount(phdrs: seq<Phdr>, n: nat): nat
    requires n <= |phdrs|
  {
    if n == 0 then 0 else DataCount(phdrs, n - 1) + if InData(phdrs, n - 1) then 1 else 0
  }

  /** The PT_LOAD headers that start at or behind the end of the executable image. */
  function DataHeaders(phdrs: seq<Phdr>, n: nat): set<nat>
    requires n <= |phdrs|
  {
    set i: nat | i < n && phdrs[i].load && phdrs[i].vaddr >= RxEnd(phdrs, |phdrs|) :: i
  }

  /** One block for each of them. */
  lemma {:induction false} DataCountIs(phdrs: seq<Phdr>, n: nat)
    requires n <= |phdrs|
    ensures DataCount(phdrs, n) == |DataHeaders(phdrs, n)|
  {
    hide RxEnd;
    if n == 0 {
      assert DataHeaders(phdrs, 0) == {};
    } else {
      DataCountIs(phdrs, n - 1);
      assert DataHeaders(phdrs, n)
          == DataHeaders(phdrs, n - 1) + if InData(phdrs, n - 1) then {n - 1} else {};
    }
  }

  /** The end of the blocks for the first `n` headers, relative to the start of the image. */
  function DataEnd(phdrs: seq<Phdr>, n: nat): nat
    requires n <= |phdrs|
  {
    if n == 0 then RxSize(phdrs)
    else
      var end := DataEnd(phdrs, n - 1);
      if InData(phdrs, n - 1) then end + BlockSize(phdrs[n - 1], end) else end
  }

  /** The block of a data segment reaches from the end of the one before to the rounded end of the segment. */
  function BlockSize(p: Phdr, end: nat): nat {
    if p.memsz + p.vaddr <= end then 0 else Align(p.memsz + p.vaddr - end, Effective(p.align))
  }

  // ----- which images the loader is for

  predicate Apart(p: Phdr, q: Phdr) {
    p.vaddr + p.memsz <= q.vaddr || q.vaddr + q.memsz <= p.vaddr
  }

  /** How much of memory a segment takes up: the copies of file bytes and of zeros. */
  function Span(p: Phdr): nat {
    if p.memsz > p.filesz then p.memsz else p.filesz
  }

  /** Every copy reads inside the file and writes inside the block it is for. */
  ghost predicate Bounded(phdrs: seq<Phdr>, size: nat) {
    && (forall i :: 0 <= i < |phdrs| && phdrs[i].load ==> phdrs[i].offset + phdrs[i].filesz <= size)
    && (forall i :: 0 <= i < |phdrs| && InText(phdrs, i) ==> phdrs[i].vaddr + Span(phdrs[i]) <= RxSize(phdrs))
    && (forall i :: 0 <= i < |phdrs| && InData(phdrs, i) ==>
          DataEnd(phdrs, i) <= phdrs[i].vaddr && phdrs[i].vaddr + Span(phdrs[i]) <= DataEnd(phdrs, i + 1))
  }

  /** Segments inside the file, disjoint, and each data segment behind all blocks that come before it. */
  ghost predicate Layout(phdrs: seq<Phdr>, size: nat) {
    && (forall i :: 0 <= i < |phdrs| && phdrs[i].load ==>
          phdrs[i].filesz <= phdrs[i].memsz && phdrs[i].offset + phdrs[i].filesz <= size)
    && (forall i, j :: 0 <= i < j < |phdrs| && phdrs[i].load && phdrs[j].load ==> Apart(phdrs[i], phdrs[j]))
    && (forall i :: 0 <= i < |phdrs| && InText(phdrs, i) ==>
          phdrs[i].vaddr + phdrs[i].memsz <= RxEnd(phdrs, |phdrs|))
    && (forall i :: 0 <= i < |phdrs| && InData(phdrs, i) ==> DataEnd(phdrs, i) <= phdrs[i].vaddr)
  }

  /** Disjoint segments in their places are copied inside their blocks. */
  lemma LayoutBounded(phdrs: seq<Phdr>, size: nat)
    requires Layout(phdrs, size)
    ensures Bounded(phdrs, size)
  {
    hide Align, RxEnd, RxAlign, Effective;
    assert RxEnd(phdrs, |phdrs|) <= RxSize(phdrs);
    forall i | 0 <= i < |phdrs| && InData(phdrs, i)
      ensures phdrs[i].vaddr + Span(phdrs[i]) <= DataEnd(phdrs, i + 1)
    {
      assert DataEnd(phdrs, i) <= phdrs[i].vaddr;
    }
  }

  // ----- memory

  /** The bytes of the file, then zeros up to the size in memory. */
  function ByteAt(p: Phdr, data: seq<Byte>, k: int): Byte
    requires p.offset + p.filesz <= |data| && 0 <= k
  {
    if k < p.filesz then data[p.offset + k] else 0
  }

  ghost predicate SegmentLoaded(mem: map<int, Byte>, base: int, p: Phdr, data: seq<Byte>) {
    && p.offset + p.filesz <= |data|
    && forall a :: base + p.vaddr <= a < base + p.vaddr + p.memsz ==>
         a in mem && mem[a] == ByteAt(p, data, a - base - p.vaddr)
  }

  /** Memory after the zeros behind the file part of a segment. */
  function WithZeros(mem: map<int, Byte>, base: int, p: Phdr): map<int, Byte> {
    if p.memsz > p.filesz then CopyTo(mem, base + p.vaddr + p.filesz, 1, Zeros(p.memsz - p.filesz)) else mem
  }

  /** Memory after the two copies for one segment. */
  function WithSegment(mem: map<int, Byte>, base: int, p: Phdr, data: seq<Byte>): map<int, Byte>
    requires p.offset + p.filesz <= |data|
  {
    CopyTo(WithZeros(mem, base, p), base + p.vaddr, 1, data[p.offset..p.offset + p.filesz])
  }

  lemma WithSegmentReads(mem: map<int, Byte>, base: int, p: Phdr, data: seq<Byte>, a: int)
    requires p.filesz <= p.memsz && p.offset + p.filesz <= |data|
    ensures var mem' := WithSegment(mem, base, p, data);
            var k := a - base - p.vaddr;
            if 0 <= k < p.memsz then a in mem' && mem'[a] == ByteAt(p, data, k)
            else (a in mem' <==> a in mem) && (a in mem ==> mem'[a] == mem[a])
  {
    CopyReads(mem, base + p.vaddr + p.filesz, Zeros(p.memsz - p.filesz), a);
    CopyReads(WithZeros(mem, base, p), base + p.vaddr, data[p.offset..p.offset + p.filesz], a);
    hide CopyTo;
  }

  /** Copying one segment loads it and leaves the others alone. */
  lemma WithSegmentLoaded(mem: map<int, Byte>, base: int, p: Phdr, q: Phdr, data: seq<Byte>)
    requires p.filesz <= p.memsz && p.offset + p.filesz <= |data|
    ensures SegmentLoaded(WithSegment(mem, base, p, data), base, p, data)
    ensures SegmentLoaded(mem, base, q, data) && Apart(p, q) ==>
              SegmentLoaded(WithSegment(mem, base, p, data), base, q, data)
  {
    hide WithSegment, ByteAt;
    var mem' := WithSegment(mem, base, p, data);
    forall a
      ensures var k := a - base - p.vaddr;
              if 0 <= k < p.memsz then a in mem' && mem'[a] == ByteAt(p, data, k)
              else (a in mem' <==> a in mem) && (a in mem ==> mem'[a] == mem[a])
    {
      WithSegmentReads(mem, base, p, data, a);
    }
  }

  // ----- page-aligned images

  /** Segments in ascending order, none empty, disjoint even after rounding to the common alignment. */
  ghost predicate PageLayout(phdrs: seq<Phdr>, page: nat, size: nat) {
    && page > 0 && RxAlign(phdrs, |phdrs|) == page
    && (forall i :: 0 <= i < |phdrs| && phdrs[i].load ==>
          && Effective(phdrs[i].align) == page && 0 < phdrs[i].memsz
          && phdrs[i].filesz <= phdrs[i].memsz && phdrs[i].offset + phdrs[i].filesz <= size)
    && (forall i, j :: 0 <= i < j < |phdrs| && phdrs[i].load && phdrs[j].load ==>
          Align(phdrs[i].vaddr + phdrs[i].memsz, page) <= phdrs[j].vaddr)
  }

  /** Rounding from a multiple of the page on is rounding from 0 on. */
  lemma BlockEnd(p: Phdr, m: nat, page: nat)
    requires page > 0 && Effective(p.align) == page && m * page < p.vaddr + p.memsz
    ensures m * page + BlockSize(p, m * page) == Align(p.vaddr + p.memsz, page)
  {
    var q := AlignIsMultiple(p.memsz + p.vaddr - m * page, page);
    assert (m + q) * page == m * page + q * page;
    AlignUnique(p.vaddr + p.memsz, page, m + q);
  }

  /** The segment that gives the image its end. */
  lemma {:induction false} LastExec(phdrs: seq<Phdr>, n: nat) returns (e: nat)
    requires n <= |phdrs| && RxEnd(phdrs, n) != 0
    ensures e < n && Exec(phdrs[e]) && RxEnd(phdrs, n) == phdrs[e].vaddr + phdrs[e].memsz
  {
    if Exec(phdrs[n - 1]) {
      return n - 1;
    }
    e := LastExec(phdrs, n - 1);
  }

  /** No block reaches into a later data segment. */
  lemma {:induction false} DataEndBelow(phdrs: seq<Phdr>, page: nat, size: nat, n: nat) returns (m: nat)
    requires PageLayout(phdrs, page, size) && n <= |phdrs| && RxEnd(phdrs, |phdrs|) != 0
    ensures DataEnd(phdrs, n) == m * page
    ensures forall j :: n <= j < |phdrs| && InData(phdrs, j) ==> DataEnd(phdrs, n) <= phdrs[j].vaddr
  {
    hide Align, Effective, RxAlign, RxEnd, BlockSize;
    if n == 0 {
      var e := LastExec(phdrs, |phdrs|);
      m := AlignIsMultiple(RxEnd(phdrs, |phdrs|), page);
    } else {
      m := DataEndBelow(phdrs, page, size, n - 1);
      if InData(phdrs, n - 1) {
        BlockEnd(phdrs[n - 1], m, page);
        m := AlignIsMultiple(phdrs[n - 1].vaddr + phdrs[n - 1].memsz, page);
      }
    }
  }

  /** Page-disjoint ascending segments are what the loader needs. */
  lemma PageLayoutSuffices(phdrs: seq<Phdr>, page: nat, size: nat)
    requires PageLayout(phdrs, page, size) && RxEnd(phdrs, |phdrs|) != 0
    ensures Layout(phdrs, size)
  {
    hide Effective, RxAlign, RxEnd, BlockSize, DataEnd;
    var e := LastExec(phdrs, |phdrs|);
    forall i | 0 <= i < |phdrs| && InData(phdrs, i)
      ensures DataEnd(phdrs, i) <= phdrs[i].vaddr
    {
      var m := DataEndBelow(phdrs, page, size, i);
    }
  }
}
