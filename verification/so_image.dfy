/**
 The arenas of a loaded image: the patch block below it and the cave behind its code are
 where the rewriter wants them, and no segment lies in either.
 */
module SoImage {
  import opened Basics
  import opened SoSegments
  import SoLoad
  import SoArena

  function Pow2(k: nat): (p: nat)
    ensures p > 0
  {
    if k == 0 then 1 else 2 * Pow2(k - 1)
  }

  /** From 4 on, a power of two is a multiple of 4. */
  lemma {:induction false} Pow2Four(k: nat)
    requires k >= 2
    ensures Pow2(k) == 4 * Pow2(k - 2)
  {
    if k > 2 {
      Pow2Four(k - 1);
    }
  }

  /** What is rounded to a multiple of 4 is one. */
  lemma AlignFour(x: nat, a: nat)
    requires a > 0 && a % 4 == 0
    ensures Align(x, a) % 4 == 0
  {
    var q := AlignIsMultiple(x, a);
    var b := a / 4;
    assert q * a == 4 * (q * b) by { MulFour(q, b, a); }
  }

  lemma {:induction false} MulFour(q: nat, b: nat, a: nat)
    requires a == 4 * b
    ensures q * a == 4 * (q * b)
  {
    if q > 0 {
      MulFour(q - 1, b, a);
      assert q * a == (q - 1) * a + a && q * b == (q - 1) * b + b;
    }
  }

  lemma PatchSmall()
    ensures Align(SoLoad.PATCH_SZ, 1) == SoLoad.PATCH_SZ && Align(SoLoad.PATCH_SZ, 2) == SoLoad.PATCH_SZ
  {
    hide Align;
    AlignUnique(SoLoad.PATCH_SZ, 1, 0x1_0000);
    AlignUnique(SoLoad.PATCH_SZ, 2, 0x8000);
  }

  /** The size of the patch block for any alignment the macro is made for. */
  lemma PatchAligned(k: nat)
    ensures Align(SoLoad.PATCH_SZ, Pow2(k)) % 4 == 0
  {
    hide Align;
    if k >= 2 {
      Pow2Four(k);
      AlignFour(SoLoad.PATCH_SZ, Pow2(k));
    } else {
      assert Pow2(0) == 1 && Pow2(1) == 2;
      PatchSmall();
    }
  }

  function CaveStart(phdrs: seq<Phdr>): nat {
    Align(RxEnd(phdrs, |phdrs|), 4)
  }

  /** Rounding an address is rounding the offset. */
  lemma AlignBased(base: nat, x: nat)
    requires base % 4 == 0
    ensures Align(base + x, 4) == base + Align(x, 4)
  {
    var q := AlignIsMultiple(x, 4);
    AlignUnique(base + x, 4, base / 4 + q);
  }

  /**
   The 32-bit size of the cave is the space behind the code exactly if rounding up does not pass the
   end of the block.
   */
  lemma CaveExact(phdrs: seq<Phdr>, loadAddr: nat)
    requires loadAddr % 4 == 0 && loadAddr + RxSize(phdrs) < 0x1_0000_0000
    ensures var cave := Align(loadAddr + RxEnd(phdrs, |phdrs|), 4);
            var left := loadAddr + RxSize(phdrs) - cave;
            Wrap(left) == left <==> CaveStart(phdrs) <= RxSize(phdrs)
  {
    AlignBased(loadAddr, RxEnd(phdrs, |phdrs|));
    hide RxEnd, RxAlign, Align;
  }

  /** It never does for an alignment of 4 or more. */
  lemma CaveFits(phdrs: seq<Phdr>)
    requires RxAlign(phdrs, |phdrs|) % 4 == 0
    ensures CaveStart(phdrs) <= RxSize(phdrs)
  {
    hide RxEnd, RxAlign, Align;
    var end, size := RxEnd(phdrs, |phdrs|), RxSize(phdrs);
    AlignFour(end, RxAlign(phdrs, |phdrs|));
    AlignLeast(end, size);
  }

  /** Rounding up stops at the first multiple. */
  lemma AlignLeast(x: nat, m: nat)
    requires x <= m && m % 4 == 0
    ensures Align(x, 4) <= m
  {
    hide Align;
    var q := AlignIsMultiple(x, 4);
    assert 4 * q < m + 4;
  }

  /** With p_align 1 and an odd end it does. */
  lemma CaveWraps()
    ensures var phdrs := [Phdr(true, true, 0, 0, 5, 5, 1)];
            RxSize(phdrs) == 5 && CaveStart(phdrs) == 8
  {
    AlignUnique(5, 1, 5);
    AlignUnique(5, 4, 2);
    var phdrs := [Phdr(true, true, 0, 0, 5, 5, 1)];
    assert RxEnd(phdrs, 1) == 5 && RxAlign(phdrs, 1) == 1;
  }

  /** An image that lies in the address space behind its patch block. */
  ghost predicate Located(phdrs: seq<Phdr>, loadAddr: nat) {
    && loadAddr % 4 == 0 && Align(SoLoad.PATCH_SZ, RxAlign(phdrs, |phdrs|)) < loadAddr
    && loadAddr + RxSize(phdrs) < 0x1_0000_0000
    && (exists k :: RxAlign(phdrs, |phdrs|) == Pow2(k))
    && CaveStart(phdrs) <= RxSize(phdrs)
  }

  /** The arenas of a load are what the rewriter requires. */
  lemma ArenasOfLoad(phdrs: seq<Phdr>, loadAddr: nat)
    requires Located(phdrs, loadAddr)
    ensures var patchSize := Align(SoLoad.PATCH_SZ, RxAlign(phdrs, |phdrs|));
            var cave := Align(loadAddr + RxEnd(phdrs, |phdrs|), 4);
            var caveSize := Wrap(loadAddr + RxSize(phdrs) - cave);
            && SoArena.ArenasPlaced(loadAddr - patchSize, patchSize, cave, caveSize)
            && cave + caveSize == loadAddr + RxSize(phdrs)
  {
    hide RxEnd, RxAlign, Align, Pow2, Wrap, RxSize;
    var k :| RxAlign(phdrs, |phdrs|) == Pow2(k);
    PatchAligned(k);
    CaveExact(phdrs, loadAddr);
    AlignBased(loadAddr, RxEnd(phdrs, |phdrs|));
    AlignFour(RxEnd(phdrs, |phdrs|), 4);
    WrapPositive(loadAddr + RxSize(phdrs) - Align(loadAddr + RxEnd(phdrs, |phdrs|), 4));
  }

  lemma WrapPositive(x: int)
    ensures 0 <= Wrap(x)
  {
  }

  /** No byte of a segment lies in the patch block or in the cave. */
  lemma SegmentsOutside(phdrs: seq<Phdr>, size: nat, loadAddr: nat, i: nat, a: int)
    requires Located(phdrs, loadAddr) && Layout(phdrs, size) && i < |phdrs| && phdrs[i].load
    requires loadAddr + phdrs[i].vaddr <= a < loadAddr + phdrs[i].vaddr + phdrs[i].memsz
    ensures loadAddr <= a
    ensures var cave := Align(loadAddr + RxEnd(phdrs, |phdrs|), 4);
            !(cave <= a < cave + Wrap(loadAddr + RxSize(phdrs) - cave))
  {
    ArenasOfLoad(phdrs, loadAddr);
    AlignBased(loadAddr, RxEnd(phdrs, |phdrs|));
    if InData(phdrs, i) {
      BlocksBehind(phdrs, i);
    }
    hide RxEnd, RxAlign, Align, RxSize, DataEnd;
  }

  lemma {:induction false} BlocksBehind(phdrs: seq<Phdr>, n: nat)
    requires n <= |phdrs|
    ensures RxSize(phdrs) <= DataEnd(phdrs, n)
  {
    hide RxSize;
    if n > 0 {
      BlocksBehind(phdrs, n - 1);
    }
  }

  /** The rewriter for a module that has been loaded; its arenas are empty. */
  method Arenas(mod: SoLoad.Module, ghost phdrs: seq<Phdr>, ghost loadAddr: nat, code: map<int, Word>)
    returns (so: SoArena.SoModule)
    requires mod.Arranged(phdrs, loadAddr) && Located(phdrs, loadAddr)
    ensures so.Valid() && so.allocs == [] && so.code == code
    ensures so.patchBase == mod.patchBase && so.patchSize == mod.patchSize
    ensures so.caveBase == mod.caveBase && so.caveSize == mod.caveSize
    ensures so.patchBase + so.patchSize == mod.textBase && so.caveBase + so.caveSize == mod.textBase + mod.textSize
  {
    ArenasOfLoad(phdrs, loadAddr);
    hide RxEnd, RxAlign, Align, Located;
    so := new SoArena.SoModule(mod.patchBase, mod.patchSize, mod.caveBase, mod.caveSize, code);
  }
}
