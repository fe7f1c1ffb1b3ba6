/**
 Code space for trampolines: the patch block in front of an image and the cave
 behind its code, branches into them, and the rewriting of LDMIA instructions.
 Addresses are 32-bit; every difference is taken modulo 2^32.
 */
module SoArena {
  import opened Basics
  import opened LdmRewrite
  import opened SoSymbols

  const B_RANGE: Word := 0xFF_FFFF

  /** How far behind the start of an arena a trampoline may begin. */
  const PATCH_REACH := 0x1FF_FFE4
  const CAVE_REACH := 0xFF_FFE8

  const JUMP: Word := 0xE51F_F004

  /** ALIGN_MEM(sz, 4) in 32 bits. */
  function Align4(sz: Word): (r: Word)
    ensures r % 4 == 0
  {
    Wrap(sz + 3) / 4 * 4
  }

  /** Alignment makes room for the request unless the addition wraps. */
  lemma Align4Exact(sz: Word)
    ensures Align4(sz) >= sz <==> sz <= 0xFFFF_FFFC
    ensures sz <= 0xFFFF_FFFC ==> Align4(sz) < sz + 4
  {
  }

  predicate InRange(lesser: Word, greater: Word, range: Word) {
    range == 0 || range >= Wrap(greater - lesser)
  }

  /** B_OFFSET on a pointer to words: eight words, not eight bytes. */
  function Biased(dst: Word): Word {
    Wrap(dst + 32)
  }

  /** Without a range every address will do. */
  lemma AnyRange(lesser: Word, greater: Word)
    ensures InRange(lesser, greater, 0)
  {
  }

  /** The range test in whole numbers. */
  lemma RangeExact(base: Word, dst: Word)
    ensures InRange(base, Biased(dst), B_RANGE) <==> (dst + 32 - base) % 0x1_0000_0000 <= 0xFF_FFFF
    ensures InRange(Biased(dst), base, B_RANGE) <==> (base - dst - 32) % 0x1_0000_0000 <= 0xFF_FFFF
  {
    BiasedBack(base, dst);
    WrapAdd(dst + 32, -(base as int));
  }

  lemma BiasedBack(base: Word, dst: Word)
    ensures Wrap(base - Biased(dst)) == Wrap(base - dst - 32)
  {
    var q := (dst + 32) / 0x1_0000_0000;
    assert Biased(dst) == dst + 32 - q * 0x1_0000_0000;
    WrapMultiple(base - dst - 32, q);
  }

  // ----- branches

  /** The 32-bit pattern read as a signed number. */
  function Signed(x: Word): int {
    if x < 0x8000_0000 then x else x - 0x1_0000_0000
  }

  function Truncated(x: int): int {
    if x >= 0 then x / 4 else -(-x / 4)
  }

  /** B(PC, DEST): an always-executed branch; the offset is cut to 24 bits. */
  function EncodeBranch(pc: Word, dest: Word): Word {
    0xEA00_0000 + (Truncated(Signed(Wrap(dest - pc))) - 2) % 0x100_0000
  }

  /** A 24-bit field read as a signed number. */
  function Offset(imm: nat): int
    requires imm < 0x100_0000
  {
    if imm < 0x80_0000 then imm else imm - 0x100_0000
  }

  /** A8.8.18: PC + 8 + the sign-extended offset in words. */
  function BranchTarget(pc: Word, word: Word): Word {
    var imm: int := word % 0x100_0000;
    Wrap(pc + 8 + 4 * Offset(imm))
  }

  /** How far a branch at `pc` has to reach. */
  function Reach(pc: Word, dest: Word): int {
    Signed(Wrap(dest - pc)) - 8
  }

  lemma OffsetExact(m: int)
    ensures Offset(m % 0x100_0000) == m <==> -0x80_0000 <= m < 0x80_0000
  {
  }

  lemma TargetExact(pc: Word, dest: Word, m: int, offset: int)
    requires -0x2000_0010 <= m <= 0x2000_0010 && -0x100_0000 <= offset <= 0x100_0000
    requires 4 * m == Reach(pc, dest)
    ensures Wrap(pc + 8 + 4 * offset) == dest <==> offset == m
  {
    var x := Wrap(dest - pc);
    var q := (dest - pc) / 0x1_0000_0000;
    assert -1 <= q <= 0;
  }

  /** The branch goes where it should exactly when the distance fits the offset field. */
  lemma BranchExact(pc: Word, dest: Word)
    requires pc % 4 == 0 && dest % 4 == 0
    ensures BranchTarget(pc, EncodeBranch(pc, dest)) == dest <==> -0x200_0000 <= Reach(pc, dest) < 0x200_0000
  {
    hide EncodeBranch, Truncated, Signed, Wrap, Offset, Reach;
    var m := EncodedOffset(pc, dest);
    OffsetExact(m);
    OffsetSmall(m % 0x100_0000);
    TargetExact(pc, dest, m, Offset(m % 0x100_0000));
  }

  /** The offset field is the number of words to go, cut to 24 bits. */
  lemma EncodedOffset(pc: Word, dest: Word) returns (m: int)
    requires pc % 4 == 0 && dest % 4 == 0
    ensures 4 * m == Reach(pc, dest) && -0x2000_0010 <= m <= 0x2000_0010
    ensures EncodeBranch(pc, dest) % 0x100_0000 == m % 0x100_0000
  {
    var d := SignedDistance(pc, dest);
    hide Signed, Wrap;
    TruncatedExact(d);
    m := d / 4 - 2;
    FieldOfBranch(m % 0x100_0000);
  }

  lemma SignedDistance(pc: Word, dest: Word) returns (d: int)
    requires pc % 4 == 0 && dest % 4 == 0
    ensures d == Signed(Wrap(dest - pc)) && d % 4 == 0 && -0x8000_0000 <= d < 0x8000_0000
  {
    d := Signed(Wrap(dest - pc));
    var q := Quotient(pc, dest);
    var a, b := pc / 4, dest / 4;
    assert d == 4 * (b - a - q * 0x4000_0000) || d == 4 * (b - a - (q + 1) * 0x4000_0000);
    FourTimes(b - a - q * 0x4000_0000);
    FourTimes(b - a - (q + 1) * 0x4000_0000);
  }

  lemma WordsAdd(a: int, b: int)
    requires a % 4 == 0 && b % 4 == 0
    ensures (a + b) % 4 == 0
  {
    FourTimes(a / 4 + b / 4);
  }

  lemma FourTimes(y: int)
    ensures 4 * y % 4 == 0
  {
  }

  lemma TruncatedExact(d: int)
    requires d % 4 == 0
    ensures Truncated(d) == d / 4
  {
  }

  lemma FieldOfBranch(imm: nat)
    requires imm < 0x100_0000
    ensures (0xEA00_0000 + imm) % 0x100_0000 == imm
  {
  }

  lemma OffsetSmall(imm: nat)
    requires imm < 0x100_0000
    ensures -0x100_0000 <= Offset(imm) <= 0x100_0000
  {
  }

  /** A small signed number survives the trip through 32 bits, whatever multiple of 2^32 comes along. */
  lemma SignedWrap(y: int, q: int)
    requires -0x8000_0000 <= y < 0x8000_0000
    ensures Signed(Wrap(y + q * 0x1_0000_0000)) == y
  {
    WrapMultiple(y, q);
  }

  /** The distance `g - l` in 32 bits differs from the true one by a multiple of 2^32. */
  lemma Quotient(l: Word, g: int) returns (q: int)
    ensures g - l == Wrap(g - l) + q * 0x1_0000_0000
  {
    q := (g - l) / 0x1_0000_0000;
  }

  /** An address behind the start of the patch block, which is in range below the biased `dst`. */
  lemma ReachBack(base: Word, head: Word, dst: Word)
    requires base <= head <= base + PATCH_REACH && InRange(base, Biased(dst), B_RANGE)
    ensures -0x200_0000 <= Reach(dst, head) < 0x200_0000
  {
    var b: int := base;
    WrapAdd(dst + 32, -b);
    var x := Wrap(dst + 32 - base);
    var q := Quotient(base, dst + 32);
    SignedWrap(head - base + 32 - x, -q);
    assert head - dst == head - base + 32 - x + -q * 0x1_0000_0000;
  }

  /** An address behind the start of the cave, which is in range above the biased `dst`. */
  lemma ReachForward(base: Word, head: Word, dst: Word)
    requires base <= head <= base + CAVE_REACH && InRange(Biased(dst), base, B_RANGE)
    ensures -0x200_0000 <= Reach(dst, head) < 0x200_0000
  {
    var far := Biased(dst);
    var q1 := Quotient(far, base);
    var q2 := Quotient(0, dst + 32);
    var x := Wrap(base - far);
    SignedWrap(head - base + 32 + x, q1 - q2);
    assert head - dst == head - base + 32 + x + (q1 - q2) * 0x1_0000_0000;
  }

  /** The branch from `dst` leads to `head`. */
  predicate Reached(dst: Word, head: Word) {
    BranchTarget(dst, EncodeBranch(dst, head)) == head
  }

  /** Every branch that passes the range test reaches `head` exactly if it is not too far behind the patch block. */
  lemma PatchReachExact(base: Word, head: Word)
    requires base % 4 == 0 && head % 4 == 0 && base <= head < base + 0x7FFF_0000
    ensures (forall dst: Word :: dst % 4 == 0 && InRange(base, Biased(dst), B_RANGE) ==> Reached(dst, head))
       <==> head - base <= PATCH_REACH
  {
    hide *;
    if head - base <= PATCH_REACH {
      forall dst: Word | dst % 4 == 0 && InRange(base, Biased(dst), B_RANGE)
        ensures Reached(dst, head)
      {
        ReachedExact(dst, head);
        ReachBack(base, head, dst);
        BranchExact(dst, head);
      }
    } else {
      var dst := FarPatch(base, head);
      ReachedExact(dst, head);
      BranchExact(dst, head);
      assert !Reached(dst, head);
    }
  }

  lemma ReachedExact(dst: Word, head: Word)
    ensures Reached(dst, head) <==> BranchTarget(dst, EncodeBranch(dst, head)) == head
  {
  }

  /** An address whose branch does not reach so far behind the patch block. */
  lemma FarPatch(base: Word, head: Word) returns (dst: Word)
    requires base % 4 == 0 && head % 4 == 0 && base + PATCH_REACH < head < base + 0x7FFF_0000
    ensures dst % 4 == 0 && InRange(base, Biased(dst), B_RANGE) && Reach(dst, head) >= 0x200_0000
  {
    dst := Wrap(base - 32);
    assert Wrap(head - dst) == head - base + 32;
  }

  /** The same for the cave, which may lie a whole range away. */
  lemma CaveReachExact(base: Word, head: Word)
    requires base % 4 == 0 && head % 4 == 0 && base <= head < base + 0x7000_0000
    ensures (forall dst: Word :: dst % 4 == 0 && InRange(Biased(dst), base, B_RANGE) ==> Reached(dst, head))
       <==> head - base <= CAVE_REACH
  {
    hide *;
    if head - base <= CAVE_REACH {
      forall dst: Word | dst % 4 == 0 && InRange(Biased(dst), base, B_RANGE)
        ensures Reached(dst, head)
      {
        ReachedExact(dst, head);
        ReachForward(base, head, dst);
        BranchExact(dst, head);
      }
    } else {
      var dst := FarCave(base, head);
      ReachedExact(dst, head);
      BranchExact(dst, head);
      assert !Reached(dst, head);
    }
  }

  lemma FarCave(base: Word, head: Word) returns (dst: Word)
    requires base % 4 == 0 && head % 4 == 0 && base + CAVE_REACH < head < base + 0x7000_0000
    ensures dst % 4 == 0 && InRange(Biased(dst), base, B_RANGE) && Reach(dst, head) >= 0x200_0000
  {
    dst := Wrap(base - 0xFF_FFFC - 32);
    assert Biased(dst) == Wrap(base - 0xFF_FFFC);
    assert Wrap(head - dst) == head - base + 0xFF_FFFC + 32;
  }

  // ----- allocation

  datatype Range = Range(start: Word, size: nat)

  predicate Apart(a: Range, b: Range) {
    a.start + a.size <= b.start || b.start + b.size <= a.start
  }

  predicate Within(a: Range, base: Word, end: int) {
    base <= a.start && a.start + a.size <= end && a.start % 4 == 0
  }

  /** Everything handed out lies below one of the heads, and no two ranges meet. */
  ghost predicate HandedOut(allocs: seq<Range>, patchBase: Word, patchHead: int, caveBase: Word, caveHead: int) {
    && (forall i :: 0 <= i < |allocs| ==>
                      Within(allocs[i], patchBase, patchHead) || Within(allocs[i], caveBase, caveHead))
    && (forall i, j :: 0 <= i < j < |allocs| ==> Apart(allocs[i], allocs[j]))
  }

  /** Moving one head past a new range. */
  lemma Carve(allocs: seq<Range>, patchBase: Word, patchHead: int, caveBase: Word, caveHead: int, a: Range)
    requires HandedOut(allocs, patchBase, patchHead, caveBase, caveHead)
    requires patchBase <= patchHead <= caveBase <= caveHead && a.start % 4 == 0
    ensures a.start == patchHead && patchHead + a.size <= caveBase ==>
              HandedOut(allocs + [a], patchBase, patchHead + a.size, caveBase, caveHead)
    ensures a.start == caveHead ==> HandedOut(allocs + [a], patchBase, patchHead, caveBase, caveHead + a.size)
  {
  }

  /** blkavail: the rest of the arena is large enough. */
  predicate RoomFor(base: Word, size: Word, head: Word, need: Word) {
    need <= Wrap(size - Wrap(head - base))
  }

  /** The unsigned arithmetic of the heads does not wrap inside an arena. */
  lemma HeadArithmetic(base: Word, size: Word, head: Word, need: Word)
    requires base <= head <= base + size < 0x1_0000_0000
    ensures RoomFor(base, size, head, need) <==> head + need <= base + size
    ensures head + need <= base + size ==> Wrap(head + need) == head + need && Wrap(Wrap(head + need) - need) == head
  {
  }

  // ----- code memory

  ghost predicate CodeAt(code: map<int, Word>, at: Word, words: seq<Word>) {
    forall k :: 0 <= k < |words| ==> at + 4 * k in code && code[at + 4 * k] == words[k]
  }

  /** The words at `at` are the loads for `instr` and the jump with its operand, which the code stores as dst + 1. */
  ghost predicate Replaces(code: map<int, Word>, at: Word, instr: Word, dst: Word) {
    CodeAt(code, at, Trampoline(instr, dst))
  }

  function Trampoline(instr: Word, dst: Word): seq<Word> {
    Loads(ListOf(instr), BaseOf(instr)) + [JUMP, Wrap(dst + 1)]
  }

  /** The instruction at `dst` has become a branch to its trampoline, which lies in one of `allocs`. */
  ghost predicate Rewritten(code: map<int, Word>, allocs: seq<Range>, dst: Word, instr: Word) {
    && dst in code
    && var at := BranchTarget(dst, code[dst]);
       && Range(at, 4 * |Trampoline(instr, dst)|) in allocs
       && Replaces(code, at, instr, dst)
  }

  lemma RewrittenIn(code: map<int, Word>, allocs: seq<Range>, dst: Word, instr: Word)
    requires Rewritten(code, allocs, dst, instr)
    ensures dst in code && Range(BranchTarget(dst, code[dst]), 4 * |Trampoline(instr, dst)|) in allocs
  {
  }

  /**
   Where an LDMIA with base `rn` and register list `list` has been rewritten: following the
   branch and running the words found there, one for each listed register, leaves the
   registers as that LDMIA does, and the word behind them jumps by the word after it.
   */
  lemma RewrittenRuns(code: map<int, Word>, allocs: seq<Range>, dst: Word, list: RegList, rn: nat, regs: Regs,
                      mem: Memory)
    requires rn < 13 && !(list[PC] && list[rn]) && Rewritten(code, allocs, dst, EncodeLdm(list, rn))
    ensures exists words: seq<Word> ::
              var at := BranchTarget(dst, code[dst]);
              && CodeAt(code, at, words + [0xE51F_F004, Wrap(dst + 1)]) && |words| == Rank(list, 16)
              && Run(words, regs, mem) == Ldm(list, rn, regs, mem)
  {
    hide IsLdr, BranchTarget, Loads, Ldm, Run, ListOf, BaseOf, Rank, Wrap, EncodeLdm;
    DecodeLdmEncoded(list, rn);
    LoadCount(list, rn);
    RewritePreserves(list, rn, regs, mem);
    TrampolineIs(EncodeLdm(list, rn), dst);
    assert CodeAt(code, BranchTarget(dst, code[dst]), Loads(list, rn) + [0xE51F_F004, Wrap(dst + 1)]);
  }

  /**
   The word behind the loads is LDR PC, [PC, #-4], so from address `j` it goes to what the
   word at `j + 4` names: PC reads as `j + 8`. That word is odd, which selects Thumb state.
   */
  lemma JumpReads(j: Word, dst: Word, code: map<int, Word>)
    requires dst % 4 == 0 && CodeAt(code, j, [0xE51F_F004, Wrap(dst + 1)])
    ensures IsLdr(0xE51F_F004) && DecodeLdr(0xE51F_F004) == Ldr(true, false, false, 15, 15, 4)
    ensures j + 8 - 4 in code && code[j + 8 - 4] == dst + 1 && code[j + 8 - 4] % 2 == 1
  {
    DecodeEncoded(15, 15, -4);
    assert EncodeLdr(15, 15, -4) == 0xE51F_F004;
    hide IsLdr, DecodeLdr, EncodeLdr;
    assert [0xE51F_F004, Wrap(dst + 1)][1] == Wrap(dst + 1);
    SmallWrap(dst);
  }

  lemma SmallWrap(dst: Word)
    requires dst % 4 == 0
    ensures Wrap(dst + 1) == dst + 1 && (dst + 1) % 2 == 1
  {
    var q := dst / 4;
    InsideWord(4 * q + 1);
    Odd(2 * q);
    hide Wrap;
    assert dst + 1 == 2 * (2 * q) + 1;
  }

  lemma InsideWord(x: Word)
    ensures Wrap(x) == x
  {
  }

  lemma Odd(y: nat)
    ensures (2 * y + 1) % 2 == 1
  {
  }

  /** B to the word after next, and B to itself. */
  lemma KnownBranches()
    ensures EncodeBranch(0x8000, 0x8008) == 0xEA00_0000 && EncodeBranch(0x8000, 0x8000) == 0xEAFF_FFFE
  {
  }

  /** The two copies that install a trampoline. */
  function Installed(code: map<int, Word>, dst: Word, at: Word, words: seq<Word>): map<int, Word> {
    CopyTo(CopyTo(code, at, 4, words), dst, 4, [EncodeBranch(dst, at)])
  }

  lemma InstallAt(code: map<int, Word>, dst: Word, at: Word, words: seq<Word>, a: int)
    ensures var code' := Installed(code, dst, at, words);
            if a == dst then a in code' && code'[a] == EncodeBranch(dst, at)
            else if at <= a && (a - at) % 4 == 0 && (a - at) / 4 < |words| then
              a in code' && code'[a] == words[(a - at) / 4]
            else (a in code' <==> a in code) && (a in code ==> code'[a] == code[a])
  {
    CopyReads4(code, at, words, a);
    CopyReads4(CopyTo(code, at, 4, words), dst, [EncodeBranch(dst, at)], a);
    hide CopyTo, EncodeBranch;
  }

  lemma InstallRewrites(code: map<int, Word>, allocs: seq<Range>, dst: Word, at: Word, instr: Word)
    requires var words := Trampoline(instr, dst);
             && Range(at, 4 * |words|) in allocs && !(at <= dst < at + 4 * |words|)
             && BranchTarget(dst, EncodeBranch(dst, at)) == at
    ensures Rewritten(Installed(code, dst, at, Trampoline(instr, dst)), allocs, dst, instr)
    ensures forall a :: a in code && a != dst && !(at <= a < at + 4 * |Trampoline(instr, dst)|) ==>
              var code' := Installed(code, dst, at, Trampoline(instr, dst)); a in code' && code'[a] == code[a]
  {
    hide Trampoline, BranchTarget, EncodeBranch, Installed;
    var words := Trampoline(instr, dst);
    var code' := Installed(code, dst, at, words);
    InstallAt(code, dst, at, words, dst);
    forall k | 0 <= k < |words|
      ensures at + 4 * k in code' && code'[at + 4 * k] == words[k]
    {
      InstallAt(code, dst, at, words, at + 4 * k);
    }
    forall a | a in code && a != dst && !(at <= a < at + 4 * |words|)
      ensures a in code' && code'[a] == code[a]
    {
      InstallAt(code, dst, at, words, a);
    }
  }

  lemma TrampolineIs(instr: Word, dst: Word)
    ensures Trampoline(instr, dst) == Loads(ListOf(instr), BaseOf(instr)) + [JUMP, Wrap(dst + 1)]
  {
  }

  lemma TrampolineSize(instr: Word, dst: Word)
    ensures |Trampoline(instr, dst)| == Rank(ListOf(instr), 16) + 2
  {
    LoadCount(ListOf(instr), BaseOf(instr));
    hide Loads, ListOf, BaseOf, Rank;
  }

  lemma InstalledIs(code: map<int, Word>, dst: Word, at: Word, words: seq<Word>)
    ensures Installed(code, dst, at, words) == CopyTo(CopyTo(code, at, 4, words), dst, 4, [EncodeBranch(dst, at)])
  {
  }

  /** Nothing but the word at `dst` and the words of `r` has changed. */
  ghost predicate KeptOutside(code: map<int, Word>, code': map<int, Word>, dst: Word, r: Range) {
    forall a :: a in code && a != dst && !(r.start <= a < r.start + r.size) ==> a in code' && code'[a] == code[a]
  }

  lemma Align4Words(n: nat)
    requires n <= 20
    ensures Align4(4 * n) == 4 * n
  {
  }

  /** Neither a later copy into fresh code space nor a later branch elsewhere disturbs a trampoline. */
  lemma RewrittenKept(code: map<int, Word>, allocs: seq<Range>, dst: Word, instr: Word,
                      code': map<int, Word>, allocs': seq<Range>)
    requires Rewritten(code, allocs, dst, instr)
    requires forall r :: r in allocs ==> r in allocs'
    requires dst in code' && code'[dst] == code[dst]
    requires var at := BranchTarget(dst, code[dst]);
             forall a :: at <= a < at + 4 * |Trampoline(instr, dst)| && a in code ==> a in code' && code'[a] == code[a]
    ensures Rewritten(code', allocs', dst, instr)
  {
    hide BranchTarget, Trampoline;
    var at := BranchTarget(dst, code[dst]);
    var words := Trampoline(instr, dst);
    forall k | 0 <= k < |words|
      ensures at + 4 * k in code' && code'[at + 4 * k] == words[k]
    {
      assert at + 4 * k in code && code[at + 4 * k] == words[k];
    }
  }

  /** The loads for one LDMIA, the jump and its operand in a buffer of twenty words. */
  method BuildTrampoline(instr: Word, dst: Word) returns (funct: array<Word>, n: nat)
    ensures fresh(funct) && n <= funct.Length == 20
    ensures funct[..n] == Trampoline(instr, dst)
  {
    funct, n := BuildLoads(instr);
    ghost var loads := funct[..n];
    TrampolineIs(instr, dst);
    hide *;
    funct[n] := JUMP;
    funct[n + 1] := Wrap(dst + 1);
    n := n + 2;
    assert funct[..n] == loads + [JUMP, Wrap(dst + 1)];
  }

  /** The state of one word of a function that has been gone over: only LDMIAs are replaced. */
  ghost predicate Done(code0: map<int, Word>, code: map<int, Word>, allocs: seq<Range>, a: Word) {
    && a in code0 && a in code
    && if IsLdm(code0[a]) then Rewritten(code, allocs, a, code0[a]) else code[a] == code0[a]
  }

  ghost predicate AllDone(code0: map<int, Word>, code: map<int, Word>, allocs: seq<Range>, start: Word, addr: int) {
    forall a: Word :: start <= a < addr && a % 4 == 0 ==> Done(code0, code, allocs, a)
  }

  /** The words not gone over yet. */
  ghost predicate Pending(code0: map<int, Word>, code: map<int, Word>, addr: int, end: int) {
    forall a: Word :: addr <= a < end && a % 4 == 0 ==> a in code0 && a in code && code[a] == code0[a]
  }

  /** After the pass: LDMIA words with a base below 13 are rewritten, and every other word is as it was. */
  lemma AllDoneMeans(code0: map<int, Word>, code: map<int, Word>, allocs: seq<Range>, start: Word, end: int, a: Word)
    requires AllDone(code0, code, allocs, start, end) && start <= a < end && a % 4 == 0
    ensures a in code0 && a in code
    ensures forall list: RegList, rn: nat :: rn < 13 && code0[a] == EncodeLdm(list, rn) ==>
              Rewritten(code, allocs, a, EncodeLdm(list, rn))
    ensures (forall list: RegList, rn: nat :: rn < 13 ==> code0[a] != EncodeLdm(list, rn)) ==> code[a] == code0[a]
  {
    assert Done(code0, code, allocs, a);
    hide Rewritten, EncodeLdm, IsLdm;
    forall list: RegList, rn: nat | rn < 13 && code0[a] == EncodeLdm(list, rn)
      ensures IsLdm(code0[a])
    {
      DecodeLdmEncoded(list, rn);
    }
    if IsLdm(code0[a]) {
      LdmIsEncoded(code0[a]);
      DecodeLdmEncoded(ListOf(code0[a]), BaseOf(code0[a]));
    }
  }

  lemma AllDoneStep(code0: map<int, Word>, code: map<int, Word>, allocs: seq<Range>, start: Word, addr: Word)
    requires start <= addr && addr % 4 == 0 && AllDone(code0, code, allocs, start, addr)
    requires Done(code0, code, allocs, addr)
    ensures AllDone(code0, code, allocs, start, addr + 4)
  {
    hide Done;
    forall a: Word | start <= a < addr + 4 && a % 4 == 0
      ensures Done(code0, code, allocs, a)
    {
      assert a < addr || a == addr;
    }
  }

  lemma UnmovedFrom(code0: map<int, Word>, code: map<int, Word>, allocs: seq<Range>, addr: Word, start: Word, end: int)
    requires start <= addr < end && addr % 4 == 0
    requires AllDone(code0, code, allocs, start, addr) && Pending(code0, code, addr, end)
    requires addr in code && !IsLdm(code[addr])
    ensures AllDone(code0, code, allocs, start, addr + 4) && Pending(code0, code, addr + 4, end)
  {
    hide Rewritten, IsLdm;
    assert Done(code0, code, allocs, addr);
    AllDoneStep(code0, code, allocs, start, addr);
  }

  lemma AllDoneWithin(code0: map<int, Word>, code: map<int, Word>, allocs: seq<Range>, start: Word, addr: int, end: int)
    requires end <= addr && AllDone(code0, code, allocs, start, addr)
    ensures AllDone(code0, code, allocs, start, end)
  {
  }

  /** Both arenas lie in the address space, aligned, the patch block first. */
  predicate ArenasPlaced(patchBase: int, patchSize: nat, caveBase: int, caveSize: nat) {
    && 0 < patchBase && patchBase % 4 == 0 && caveBase % 4 == 0
    && patchBase + patchSize <= caveBase
    && caveBase + caveSize < 0x1_0000_0000
  }

  datatype Choice = Patch | Cave | Neither

  class SoModule {
    const patchBase: Word
    const patchSize: Word
    const caveBase: Word
    const caveSize: Word
    var patchHead: Word
    var caveHead: Word
    /** Words of code, by address. */
    var code: map<int, Word>

    /** What has been handed out. */
    ghost var allocs: seq<Range>

    ghost predicate Valid()
      reads this
    {
      && ArenasPlaced(patchBase, patchSize, caveBase, caveSize)
      && patchBase <= patchHead <= patchBase + patchSize && patchHead % 4 == 0
      && caveBase <= caveHead <= caveBase + caveSize && caveHead % 4 == 0
      && HandedOut(allocs, patchBase, patchHead, caveBase, caveHead)
    }

    constructor (patchBase: Word, patchSize: Word, caveBase: Word, caveSize: Word, code: map<int, Word>)
      requires ArenasPlaced(patchBase, patchSize, caveBase, caveSize)
      ensures Valid() && allocs == [] && this.code == code
      ensures this.patchBase == patchBase && this.patchSize == patchSize
      ensures this.caveBase == caveBase && this.caveSize == caveSize
    {
      this.patchBase, this.patchSize, this.caveBase, this.caveSize := patchBase, patchSize, caveBase, caveSize;
      patchHead, caveHead := patchBase, caveBase;
      this.code := code;
      allocs := [];
    }

    /** The patch block if it has room and is in range of `dst`, else the cave on the same terms. */
    function Choice(range: Word, dst: Word, need: Word): Choice
      reads this
    {
      if RoomFor(patchBase, patchSize, patchHead, need) && InRange(patchBase, dst, range) then Patch
      else if RoomFor(caveBase, caveSize, caveHead, need) && InRange(dst, caveBase, range) then Cave
      else Neither
    }

    method TakePatch(need: Word) returns (r: Word)
      requires Valid() && need % 4 == 0 && RoomFor(patchBase, patchSize, patchHead, need)
      modifies this`patchHead, this`allocs
      ensures Valid() && r == old(patchHead) && patchHead == r + need
      ensures allocs == old(allocs) + [Range(r, need)]
    {
      hide Wrap, HandedOut, RoomFor, Within, Apart;
      WordsAdd(patchHead, need);
      HeadArithmetic(patchBase, patchSize, patchHead, need);
      Carve(allocs, patchBase, patchHead, caveBase, caveHead, Range(patchHead, need));
      patchHead := Wrap(patchHead + need);
      r := Wrap(patchHead - need);
      allocs := allocs + [Range(r, need)];
    }

    method TakeCave(need: Word) returns (r: Word)
      requires Valid() && need % 4 == 0 && RoomFor(caveBase, caveSize, caveHead, need)
      modifies this`caveHead, this`allocs
      ensures Valid() && r == old(caveHead) && caveHead == r + need
      ensures allocs == old(allocs) + [Range(r, need)]
    {
      hide Wrap, HandedOut, RoomFor, Within, Apart;
      WordsAdd(caveHead, need);
      HeadArithmetic(caveBase, caveSize, caveHead, need);
      Carve(allocs, patchBase, patchHead, caveBase, caveHead, Range(caveHead, need));
      caveHead := Wrap(caveHead + need);
      r := Wrap(caveHead - need);
      allocs := allocs + [Range(r, need)];
    }

    /** Moves the head of the chosen arena; 0 if there is none. */
    method AllocArena(range: Word, dst: Word, sz: Word) returns (r: Word)
      requires Valid()
      modifies this`patchHead, this`caveHead, this`allocs
      ensures Valid()
      ensures match old(Choice(range, dst, Align4(sz)))
              case Neither =>
                r == 0 && allocs == old(allocs) && patchHead == old(patchHead) && caveHead == old(caveHead)
              case Patch => r == old(patchHead) && patchHead == r + Align4(sz) && caveHead == old(caveHead)
                            && allocs == old(allocs) + [Range(r, Align4(sz))]
              case Cave => r == old(caveHead) && caveHead == r + Align4(sz) && patchHead == old(patchHead)
                           && allocs == old(allocs) + [Range(r, Align4(sz))]
    {
      var need := Align4(sz);
      hide InRange, RoomFor, Align4, Valid;
      if RoomFor(patchBase, patchSize, patchHead, need) && InRange(patchBase, dst, range) {
        r := TakePatch(need);
      } else if RoomFor(caveBase, caveSize, caveHead, need) && InRange(dst, caveBase, range) {
        r := TakeCave(need);
      } else {
        r := 0;
      }
    }

    /** The patch block has `need` bytes behind `head`, and its start is in range below the biased `dst`. */
    predicate PatchFits(head: int, dst: Word, need: int) {
      head + need <= patchBase + patchSize && PatchInRange(dst)
    }

    predicate PatchInRange(dst: Word) {
      (dst + 32 - patchBase) % 0x1_0000_0000 <= 0xFF_FFFF
    }

    /** The cave has `need` bytes behind `head`, and its start is in range above the biased `dst`. */
    predicate CaveFits(head: int, dst: Word, need: int) {
      head + need <= caveBase + caveSize && (caveBase - dst - 32) % 0x1_0000_0000 <= 0xFF_FFFF
    }

    /** Which arena a trampoline of `need` bytes for `dst` comes from. */
    lemma ChoiceExact(dst: Word, need: Word)
      requires Valid()
      ensures Choice(B_RANGE, Biased(dst), need)
           == if PatchFits(patchHead, dst, need) then Patch else if CaveFits(caveHead, dst, need) then Cave else Neither
    {
      hide RoomFor, HandedOut, InRange, Wrap, Biased;
      HeadArithmetic(patchBase, patchSize, patchHead, need);
      HeadArithmetic(caveBase, caveSize, caveHead, need);
      RangeExact(patchBase, dst);
      RangeExact(caveBase, dst);
    }

    /** Addresses that belong to the arenas. */
    predicate InArena(a: int) {
      patchBase <= a < patchBase + patchSize || caveBase <= a < caveBase + caveSize
    }

    /** Within the reach of a branch: what the range check and the sizes of the arenas guarantee. */
    lemma ReachOfChoice(dst: Word, need: Word, r: Word)
      requires Valid() && patchSize <= PATCH_REACH && caveSize <= CAVE_REACH && dst % 4 == 0
      requires Choice(B_RANGE, Biased(dst), need) == Patch ==> r == patchHead
      requires Choice(B_RANGE, Biased(dst), need) == Cave ==> r == caveHead
      requires Choice(B_RANGE, Biased(dst), need) != Neither
      ensures 0 < r && r % 4 == 0 && BranchTarget(dst, EncodeBranch(dst, r)) == r
      ensures forall a :: r <= a < r + need ==> InArena(a)
    {
      hide Wrap, Reach, RoomFor, InRange, Biased, BranchTarget, EncodeBranch;
      if Choice(B_RANGE, Biased(dst), need) == Patch {
        HeadArithmetic(patchBase, patchSize, patchHead, need);
        ReachBack(patchBase, r, dst);
      } else {
        HeadArithmetic(caveBase, caveSize, caveHead, need);
        ReachForward(caveBase, r, dst);
      }
      BranchExact(dst, r);
    }

    /** The last allocation lies inside the arenas and holds the trampoline; everything else is as before. */
    ghost predicate Moved(code: map<int, Word>, allocs: seq<Range>, code': map<int, Word>, allocs': seq<Range>,
                          dst: Word)
      requires dst in code
    {
      && |allocs'| == |allocs| + 1 && allocs'[..|allocs|] == allocs
      && var r := allocs'[|allocs|];
         && (forall a :: r.start <= a < r.start + r.size ==> InArena(a))
         && KeptOutside(code, code', dst, r)
         && Rewritten(code', allocs', dst, code[dst])
    }

    lemma MovedBy(code: map<int, Word>, allocs: seq<Range>, dst: Word, at: Word, words: seq<Word>)
      requires dst in code && words == Trampoline(code[dst], dst) && !InArena(dst)
      requires forall a :: at <= a < at + 4 * |words| ==> InArena(a)
      requires BranchTarget(dst, EncodeBranch(dst, at)) == at
      ensures Moved(code, allocs, CopyTo(CopyTo(code, at, 4, words), dst, 4, [EncodeBranch(dst, at)]),
                    allocs + [Range(at, 4 * |words|)], dst)
    {
      InstalledIs(code, dst, at, words);
      hide Trampoline, BranchTarget, EncodeBranch, Installed, CopyTo, Rewritten, InArena;
      var r := Range(at, 4 * |words|);
      assert (allocs + [r])[|allocs|] == r && (allocs + [r])[..|allocs|] == allocs;
      InstallRewrites(code, allocs + [r], dst, at, code[dst]);
    }

    /**
     Moves one LDMIA out of line: the loads go to fresh code space, a branch to them
     replaces the instruction. Without space the process ends (`ok` false).
     */
    method TrampolineLdm(dst: Word) returns (ok: bool)
      requires Valid() && patchSize <= PATCH_REACH && caveSize <= CAVE_REACH
      requires dst % 4 == 0 && dst in code && !InArena(dst)
      modifies this`patchHead, this`caveHead, this`allocs, this`code
      ensures Valid()
      ensures var need := 4 * Rank(ListOf(old(code)[dst]), 16) + 8;
              && ok == (PatchFits(old(patchHead), dst, need) || CaveFits(old(caveHead), dst, need))
              && patchHead == old(patchHead) + (if PatchFits(old(patchHead), dst, need) then need else 0)
              && caveHead == old(caveHead) + (if ok && !PatchFits(old(patchHead), dst, need) then need else 0)
      ensures !ok ==> code == old(code) && allocs == old(allocs)
      ensures ok ==> Moved(old(code), old(allocs), code, allocs, dst)
    {
      hide *;
      TrampolineSize(code[dst], dst);
      var funct, n := BuildTrampoline(code[dst], dst);
      Align4Words(n);
      Prospect(dst, funct[..n], 4 * n);
      var at := AllocArena(B_RANGE, Biased(dst), 4 * n);
      if at == 0 {
        return false;
      }
      ok := true;
      Install(dst, at, funct[..n]);
    }

    /** The two copies: the trampoline, then the branch to it. */
    method Install(dst: Word, at: Word, words: seq<Word>)
      requires Valid()
      modifies this`code
      ensures Valid() && code == CopyTo(CopyTo(old(code), at, 4, words), dst, 4, [EncodeBranch(dst, at)])
    {
      hide CopyTo, EncodeBranch, HandedOut;
      var branch := EncodeBranch(dst, at);
      code := CopyTo(code, at, 4, words);
      code := CopyTo(code, dst, 4, [branch]);
    }

    /** What the allocation for a trampoline will lead to. */
    lemma Prospect(dst: Word, words: seq<Word>, need: Word)
      requires Valid() && patchSize <= PATCH_REACH && caveSize <= CAVE_REACH
      requires dst % 4 == 0 && dst in code && !InArena(dst)
      requires words == Trampoline(code[dst], dst) && need == 4 * |words|
      ensures var choice := Choice(B_RANGE, Biased(dst), need);
              && choice == (if PatchFits(patchHead, dst, need) then Patch
                            else if CaveFits(caveHead, dst, need) then Cave else Neither)
              && (choice != Neither ==>
                    var next := if choice == Patch then patchHead else caveHead;
                    && 0 < next
                    && Moved(code, allocs, CopyTo(CopyTo(code, next, 4, words), dst, 4, [EncodeBranch(dst, next)]),
                             allocs + [Range(next, need)], dst))
    {
      hide *;
      ChoiceExact(dst, need);
      var choice := Choice(B_RANGE, Biased(dst), need);
      if choice != Neither {
        var next := if choice == Patch then patchHead else caveHead;
        ReachOfChoice(dst, need, next);
        MovedBy(code, allocs, dst, next, words);
      }
    }

    /** Going over the words from `addr` on with these heads, every LDMIA finds room for its trampoline. */
    ghost predicate Enough(code0: map<int, Word>, ph: int, ch: int, addr: int, end: int)
      decreases end - addr
    {
      if !(0 <= addr < end && addr in code0 && addr < 0x1_0000_0000) then true
      else if !IsLdm(code0[addr]) then Enough(code0, ph, ch, addr + 4, end)
      else
        var need := 4 * Rank(ListOf(code0[addr]), 16) + 8;
        if PatchFits(ph, addr, need) then Enough(code0, ph + need, ch, addr + 4, end)
        else CaveFits(ch, addr, need) && Enough(code0, ph, ch + need, addr + 4, end)
    }

    /** The trampolines of all LDMIAs from `addr` on. */
    ghost function TotalNeed(code0: map<int, Word>, addr: int, end: int): nat
      decreases end - addr
    {
      if !(0 <= addr < end && addr in code0) then 0
      else (if IsLdm(code0[addr]) then 4 * Rank(ListOf(code0[addr]), 16) + 8 else 0) + TotalNeed(code0, addr + 4, end)
    }

    /** A patch block that has room for all of them and is in range of the whole function is enough. */
    lemma {:induction false} EnoughPatch(code0: map<int, Word>, ph: int, ch: int, addr: int, end: int)
      requires ph + TotalNeed(code0, addr, end) <= patchBase + patchSize
      requires forall a: Word :: addr <= a < end ==> PatchInRange(a)
      ensures Enough(code0, ph, ch, addr, end)
      decreases end - addr
    {
      hide IsLdm, ListOf, Rank;
      if 0 <= addr < end && addr in code0 && addr < 0x1_0000_0000 {
        var need := 4 * Rank(ListOf(code0[addr]), 16) + 8;
        assert PatchInRange(addr);
        EnoughPatch(code0, if IsLdm(code0[addr]) then ph + need else ph, ch, addr + 4, end);
      }
    }

    lemma EnoughStep(code0: map<int, Word>, ph: int, ch: int, addr: Word, end: int)
      requires addr < end && addr in code0
      ensures var need := 4 * Rank(ListOf(code0[addr]), 16) + 8;
              Enough(code0, ph, ch, addr, end) <==>
                if !IsLdm(code0[addr]) then Enough(code0, ph, ch, addr + 4, end)
                else if PatchFits(ph, addr, need) then Enough(code0, ph + need, ch, addr + 4, end)
                else CaveFits(ch, addr, need) && Enough(code0, ph, ch + need, addr + 4, end)
    {
      hide IsLdm, ListOf, Rank;
    }

    lemma EnoughEnd(code0: map<int, Word>, ph: int, ch: int, addr: int, end: int)
      requires addr >= end
      ensures Enough(code0, ph, ch, addr, end)
    {
    }

    /** What is handed out lies in the arenas. */
    lemma HandedOutInside(a: int, i: nat)
      requires Valid() && i < |allocs| && allocs[i].start <= a < allocs[i].start + allocs[i].size
      ensures InArena(a)
    {
      assert Within(allocs[i], patchBase, patchHead) || Within(allocs[i], caveBase, caveHead);
    }

    /** Moving a later instruction leaves the earlier ones as they are. */
    lemma DoneKept(code0: map<int, Word>, code: map<int, Word>, allocs0: seq<Range>, dst: Word, a: Word)
      requires Valid() && dst in code && Moved(code, allocs0, this.code, allocs, dst)
      requires Done(code0, code, allocs0, a) && a != dst && !InArena(a) && !InArena(dst)
      ensures Done(code0, this.code, allocs, a)
    {
      hide Rewritten, IsLdm;
      var last := allocs[|allocs0|];
      assert a in this.code && this.code[a] == code[a];
      if IsLdm(code0[a]) {
        var at, size := BranchTarget(a, code[a]), 4 * |Trampoline(code0[a], a)|;
        assert Range(at, size) in allocs0 by { RewrittenIn(code, allocs0, a, code0[a]); }
        var i :| 0 <= i < |allocs0| && allocs0[i] == Range(at, size);
        assert allocs[..|allocs0|][i] == allocs[i];
        assert Apart(allocs[i], last);
        forall b | at <= b < at + size && b in code
          ensures b in this.code && this.code[b] == code[b]
        {
          HandedOutInside(b, i);
        }
        forall r | r in allocs0
          ensures r in allocs
        {
          var j :| 0 <= j < |allocs0| && allocs0[j] == r;
          assert allocs[..|allocs0|][j] == allocs[j];
        }
        RewrittenKept(code, allocs0, a, code0[a], this.code, allocs);
      }
    }

    /** The words of the function are code, and none lies in an arena. */
    ghost predicate Outside(start: Word, end: int)
    {
      forall a: Word :: start <= a < end && a % 4 == 0 ==> !InArena(a)
    }

    lemma PendingKept(code0: map<int, Word>, code1: map<int, Word>, allocs1: seq<Range>, addr: Word, start: Word,
                      end: int)
      requires start <= addr < end && addr % 4 == 0 && addr in code1 && Outside(start, end)
      requires Moved(code1, allocs1, code, allocs, addr) && Pending(code0, code1, addr, end)
      ensures Pending(code0, code, addr + 4, end)
    {
      hide Rewritten, InArena;
      var last := allocs[|allocs1|];
      assert KeptOutside(code1, code, addr, last);
      forall a: Word | addr + 4 <= a < end && a % 4 == 0
        ensures a in code0 && a in code && code[a] == code0[a]
      {
        assert !InArena(a);
        assert a in code1;
      }
    }

    lemma AllDoneKept(code0: map<int, Word>, code1: map<int, Word>, allocs1: seq<Range>, addr: Word, start: Word,
                      end: int)
      requires Valid() && start <= addr < end && addr % 4 == 0 && addr in code1 && Outside(start, end)
      requires Moved(code1, allocs1, code, allocs, addr)
      requires AllDone(code0, code1, allocs1, start, addr)
      ensures AllDone(code0, code, allocs, start, addr)
    {
      hide Done, Valid, InArena, Moved;
      forall a: Word | start <= a < addr && a % 4 == 0
        ensures Done(code0, code, allocs, a)
      {
        assert !InArena(a);
        DoneKept(code0, code1, allocs1, addr, a);
      }
    }

    lemma MovedFrom(code0: map<int, Word>, code1: map<int, Word>, allocs1: seq<Range>, addr: Word, start: Word,
                    end: int)
      requires Valid() && start <= addr < end && addr % 4 == 0 && addr in code1
      requires Outside(start, end) && IsLdm(code1[addr])
      requires Moved(code1, allocs1, code, allocs, addr)
      requires AllDone(code0, code1, allocs1, start, addr) && Pending(code0, code1, addr, end)
      ensures AllDone(code0, code, allocs, start, addr + 4) && Pending(code0, code, addr + 4, end)
    {
      PendingKept(code0, code1, allocs1, addr, start, end);
      PendingAt(code0, code1, addr, start, end);
      AllDoneKept(code0, code1, allocs1, addr, start, end);
      assert Rewritten(code, allocs, addr, code0[addr]);
      RewrittenIn(code, allocs, addr, code0[addr]);
      hide Rewritten, IsLdm, Valid, InArena, Moved, Pending, Outside, AllDone;
      assert Done(code0, code, allocs, addr);
      AllDoneStep(code0, code, allocs, start, addr);
    }

    /** Code that belongs neither to the function nor to an arena is as before. */
    ghost predicate Elsewhere(code0: map<int, Word>, code: map<int, Word>, start: Word, end: int)
    {
      forall a :: a in code0 && !InArena(a) && !(start <= a < end) ==> a in code && code[a] == code0[a]
    }

    lemma ElsewhereKept(code0: map<int, Word>, code1: map<int, Word>, allocs1: seq<Range>, addr: Word, start: Word,
                        end: int)
      requires start <= addr < end && addr in code1 && Elsewhere(code0, code1, start, end)
      requires Moved(code1, allocs1, code, allocs, addr)
      ensures Elsewhere(code0, code, start, end)
    {
      hide Rewritten, InArena;
      var last := allocs[|allocs1|];
      assert KeptOutside(code1, code, addr, last);
    }

    /**
     so_symbol_fix_ldmia on a function of `size` bytes: every LDMIA with a base of R0 to R12
     is moved out of line, every other word of the function and all other code stays.
     */
    method FixLdmia(start: Word, size: Word) returns (ok: bool)
      requires Valid() && patchSize <= PATCH_REACH && caveSize <= CAVE_REACH
      requires start % 4 == 0 && start + size + 4 < 0x1_0000_0000 && Outside(start, start + size)
      requires forall a: Word :: start <= a < start + size && a % 4 == 0 ==> a in code
      modifies this`patchHead, this`caveHead, this`allocs, this`code
      ensures Valid()
      ensures ok <==> Enough(old(code), old(patchHead), old(caveHead), start, start + size)
      ensures ok ==> AllDone(old(code), code, allocs, start, start + size)
      ensures Elsewhere(old(code), code, start, start + size)
    {
      var addr: Word := start;
      ok := true;
      ghost var code0 := code;
      var end: Word := start + size;
      assert AllDone(code0, code, allocs, start, addr) && Pending(code0, code, addr, end);
      assert Elsewhere(code0, code, start, end);
      ghost var enough := Enough(code0, patchHead, caveHead, start, end);
      hide *;
      while addr < end && ok
        invariant enough <==> ok && Enough(code0, patchHead, caveHead, addr, end)
        invariant Valid() && start <= addr < end + 4 && addr % 4 == 0
        invariant ok ==> AllDone(code0, code, allocs, start, addr)
        invariant ok ==> Pending(code0, code, addr, end)
        invariant Elsewhere(code0, code, start, end)
        decreases end - addr, ok
      {
        ok := FixAt(addr, start, end, code0);
        addr := addr + 4;
      }
      if ok {
        AllDoneWithin(code0, code, allocs, start, addr, end);
        EnoughEnd(code0, patchHead, caveHead, addr, end);
      }
    }

    method FixAt(addr: Word, start: Word, end: Word, ghost code0: map<int, Word>) returns (ok: bool)
      requires Valid() && patchSize <= PATCH_REACH && caveSize <= CAVE_REACH
      requires start <= addr < end && addr % 4 == 0 && Outside(start, end)
      requires AllDone(code0, code, allocs, start, addr) && Pending(code0, code, addr, end)
      requires Elsewhere(code0, code, start, end)
      modifies this`patchHead, this`caveHead, this`allocs, this`code
      ensures Valid() && Elsewhere(code0, code, start, end)
      ensures Enough(code0, old(patchHead), old(caveHead), addr, end)
         <==> ok && Enough(code0, patchHead, caveHead, addr + 4, end)
      ensures ok ==> AllDone(code0, code, allocs, start, addr + 4)
      ensures ok ==> Pending(code0, code, addr + 4, end)
    {
      PendingAt(code0, code, addr, start, end);
      EnoughStep(code0, patchHead, caveHead, addr, end);
      hide *;
      ok := true;
      if IsLdm(code[addr]) {
        ok := MoveAt(addr, start, end, code0);
      } else {
        UnmovedFrom(code0, code, allocs, addr, start, end);
      }
    }

    method MoveAt(addr: Word, start: Word, end: Word, ghost code0: map<int, Word>) returns (ok: bool)
      requires Valid() && patchSize <= PATCH_REACH && caveSize <= CAVE_REACH
      requires start <= addr < end && addr % 4 == 0 && Outside(start, end)
      requires addr in code && !InArena(addr) && IsLdm(code[addr])
      requires AllDone(code0, code, allocs, start, addr) && Pending(code0, code, addr, end)
      requires Elsewhere(code0, code, start, end)
      modifies this`patchHead, this`caveHead, this`allocs, this`code
      ensures Valid() && Elsewhere(code0, code, start, end)
      ensures var need := 4 * Rank(ListOf(old(code)[addr]), 16) + 8;
              && ok == (PatchFits(old(patchHead), addr, need) || CaveFits(old(caveHead), addr, need))
              && patchHead == old(patchHead) + (if PatchFits(old(patchHead), addr, need) then need else 0)
              && caveHead == old(caveHead) + (if ok && !PatchFits(old(patchHead), addr, need) then need else 0)
      ensures ok ==> AllDone(code0, code, allocs, start, addr + 4) && Pending(code0, code, addr + 4, end)
    {
      hide *;
      ghost var code1, allocs1 := code, allocs;
      ok := TrampolineLdm(addr);
      if ok {
        MovedFrom(code0, code1, allocs1, addr, start, end);
        ElsewhereKept(code0, code1, allocs1, addr, start, end);
      }
    }

    /** The words of a function of the module `m`. */
    ghost predicate IsCode(m: Module, sym: Symbol)
      reads this
    {
      var start := Wrap(m.base + sym.value);
      && start % 4 == 0 && start + sym.size + 4 < 0x1_0000_0000 && Outside(start, start + sym.size)
      && forall a: Word :: start <= a < start + sym.size && a % 4 == 0 ==> a in code
    }

    /** so_symbol_fix_ldmia: nothing happens without such a symbol. */
    method FixSymbol(m: Module, name: Name) returns (ok: bool)
      requires Valid() && patchSize <= PATCH_REACH && caveSize <= CAVE_REACH
      requires m.table.Searchable()
      requires m.table.Find(name) >= 0 ==> IsCode(m, m.table.syms[m.table.Find(name)])
      modifies this`patchHead, this`caveHead, this`allocs, this`code
      ensures Valid()
      ensures m.table.Find(name) < 0 ==> ok && code == old(code) && allocs == old(allocs)
      ensures m.table.Find(name) >= 0 ==>
                var sym := m.table.syms[m.table.Find(name)];
                var start := Wrap(m.base + sym.value);
                && ok == Enough(old(code), old(patchHead), old(caveHead), start, start + sym.size)
                && Elsewhere(old(code), code, start, start + sym.size)
                && (ok ==> AllDone(old(code), code, allocs, start, start + sym.size))
    {
      var idx := SymbolIndex(m.table, name);
      if idx < 0 {
        return true;
      }
      hide AllDone, Elsewhere, Valid, Outside, Enough;
      var sym := m.table.syms[idx];
      ok := FixLdmia(Wrap(m.base + sym.value), sym.size);
    }

    lemma PendingAt(code0: map<int, Word>, code: map<int, Word>, addr: Word, start: Word, end: int)
      requires start <= addr < end && addr % 4 == 0 && Pending(code0, code, addr, end) && Outside(start, end)
      ensures addr in code0 && addr in code && code[addr] == code0[addr] && !InArena(addr)
    {
    }
  }
}
