/**
 Replacing an LDMIA by single-word loads: instruction words are built and decoded
 field by field, and both forms are given their ARM meaning.
 */
module LdmRewrite {
  import opened Basics

  /** Registers R0 to R15. */
  type Regs = s: seq<Word> | |s| == 16 witness seq(16, _ => 0)

  /** Memory by byte address; a word may be read at any address. */
  type Memory = int -> Word

  const PC := 15

  function Set(regs: Regs, r: nat, w: Word): Regs
    requires r < 16
  {
    regs[..r] + [w] + regs[r + 1..]
  }

  lemma SetAt(regs: Regs, k: nat, w: Word, r: nat)
    requires k < 16 && r < 16
    ensures Set(regs, k, w)[r] == if r == k then w else regs[r]
  {
  }

  // ----- instruction words

  /** LDR (immediate, A32): cond 010 P U 0 W 1 Rn Rt imm12. */
  datatype Ldr = Ldr(p: bool, u: bool, w: bool, rn: nat, rt: nat, imm: nat)

  predicate IsLdr(word: Word) {
    word / 0x1000_0000 == 14 && word / 0x200_0000 % 8 == 2 && word / 0x40_0000 % 2 == 0 && word / 0x10_0000 % 2 == 1
  }

  function DecodeLdr(word: Word): (d: Ldr)
    ensures d.rn < 16 && d.rt < 16
  {
    Ldr(word / 0x100_0000 % 2 == 1, word / 0x80_0000 % 2 == 1, word / 0x20_0000 % 2 == 1,
        word / 0x1_0000 % 16, word / 0x1000 % 16, word % 0x1000)
  }

  /** LDR_OFFS: pre-indexed, no write-back, always executed. */
  function EncodeLdr(rt: nat, rn: nat, imm: int): (word: Word)
    requires rt < 16 && rn < 16 && -0x1000 < imm < 0x1000
  {
    14 * 0x1000_0000 + 2 * 0x200_0000 + 0x100_0000 + (if imm >= 0 then 0x80_0000 else 0) + 0x10_0000
      + rn * 0x1_0000 + rt * 0x1000 + (if imm >= 0 then imm else -imm)
  }

  /** The fields of a word whose top twelve bits are `k`. */
  lemma Fields(k: nat, rn: nat, rt: nat, imm: nat)
    requires k < 0x1000 && rn < 16 && rt < 16 && imm < 0x1000
    ensures var word := k * 0x10_0000 + rn * 0x1_0000 + rt * 0x1000 + imm;
            && word % 0x1000 == imm && word / 0x1000 % 16 == rt && word / 0x1_0000 % 16 == rn
            && word / 0x10_0000 == k
  {
    var word := k * 0x10_0000 + rn * 0x1_0000 + rt * 0x1000 + imm;
    assert word / 0x1000 == k * 256 + rn * 16 + rt;
    assert word / 0x1_0000 == k * 16 + rn;
  }

  lemma TopFields(word: nat)
    ensures word / 0x1000_0000 == word / 0x10_0000 / 0x100 && word / 0x200_0000 == word / 0x10_0000 / 0x20
    ensures word / 0x100_0000 == word / 0x10_0000 / 0x10 && word / 0x80_0000 == word / 0x10_0000 / 8
    ensures word / 0x40_0000 == word / 0x10_0000 / 4 && word / 0x20_0000 == word / 0x10_0000 / 2
  {
  }

  lemma DecodeEncoded(rt: nat, rn: nat, imm: int)
    requires rt < 16 && rn < 16 && -0x1000 < imm < 0x1000
    ensures IsLdr(EncodeLdr(rt, rn, imm))
    ensures DecodeLdr(EncodeLdr(rt, rn, imm)) == Ldr(true, imm >= 0, false, rn, rt, if imm >= 0 then imm else -imm)
  {
    Fields(if imm >= 0 then 0xE59 else 0xE51, rn, rt, if imm >= 0 then imm else -imm);
    TopFields(EncodeLdr(rt, rn, imm));
  }

  /** The same form for any fields: cond 1110, 010 P U 0 W 1, Rn, Rt, imm12. */
  function LdrWord(d: Ldr): nat {
    0xE410_0000 + (if d.p then 0x100_0000 else 0) + (if d.u then 0x80_0000 else 0) + (if d.w then 0x20_0000 else 0)
    + d.rn * 0x1_0000 + d.rt * 0x1000 + d.imm
  }

  /** Every field of such a word is read back. */
  lemma LdrReadBack(d: Ldr)
    requires d.rn < 16 && d.rt < 16 && d.imm < 0x1000
    ensures LdrWord(d) < 0x1_0000_0000 && IsLdr(LdrWord(d)) && DecodeLdr(LdrWord(d)) == d
  {
    var k := TopOf(d.p, d.u, d.w);
    TopOfBits(d.p, d.u, d.w);
    Fields(k, d.rn, d.rt, d.imm);
    var word := k * 0x10_0000 + d.rn * 0x1_0000 + d.rt * 0x1000 + d.imm;
    assert LdrWord(d) == word;
    hide TopOf, LdrWord;
    TopFields(word);
  }

  function TopOf(p: bool, u: bool, w: bool): nat {
    0xE41 + (if p then 16 else 0) + (if u then 8 else 0) + (if w then 2 else 0)
  }

  lemma TopOfBits(p: bool, u: bool, w: bool)
    ensures var k := TopOf(p, u, w);
            && k < 0x1000 && k / 0x100 == 14 && k / 0x20 % 8 == 2 && k / 4 % 2 == 0 && k % 2 == 1
            && (k / 0x10 % 2 == 1) == p && (k / 8 % 2 == 1) == u && (k / 2 % 2 == 1) == w
  {
  }

  /** And no other word is taken for one. */
  lemma LdrIsWord(word: Word)
    requires IsLdr(word)
    ensures word == LdrWord(DecodeLdr(word))
  {
    TopFields(word);
    TopBits(word / 0x10_0000);
    LowFields(word);
    hide IsLdr;
  }

  lemma TopBits(k: nat)
    requires k / 0x100 == 14 && k / 0x20 % 8 == 2 && k / 4 % 2 == 0 && k % 2 == 1
    ensures k == 0xE41 + k / 16 % 2 * 16 + k / 8 % 2 * 8 + k / 2 % 2 * 2
  {
    var k1, k2, k3, k4, k5 := k / 2, k / 4, k / 8, k / 16, k / 0x20;
    Halved(k, 2);
    Halved(k, 4);
    Halved(k, 8);
    Halved(k, 16);
    Eighth(k);
    Joined(k, k1, k2, k3, k4, k5);
  }

  /** Halving again: the quotient by twice as much, and one more bit. */
  lemma Halved(k: nat, d: nat)
    requires d == 2 || d == 4 || d == 8 || d == 16
    ensures k / d == 2 * (k / (2 * d)) + k / d % 2
  {
    TwiceThenTwo(k, d);
  }

  lemma Eighth(k: nat)
    ensures k / 0x20 == 8 * (k / 0x100) + k / 0x20 % 8
  {
    assert k / 0x20 / 8 == k / 0x100;
  }

  lemma Joined(k: nat, k1: nat, k2: nat, k3: nat, k4: nat, k5: nat)
    requires k == 2 * k1 + k % 2 && k1 == 2 * k2 + k1 % 2 && k2 == 2 * k3 + k2 % 2
    requires k3 == 2 * k4 + k3 % 2 && k4 == 2 * k5 + k4 % 2
    ensures k == k5 * 32 + k4 % 2 * 16 + k3 % 2 * 8 + k2 % 2 * 4 + k1 % 2 * 2 + k % 2
  {
  }

  lemma LowFields(word: nat)
    ensures word == word / 0x10_0000 * 0x10_0000 + word / 0x1_0000 % 16 * 0x1_0000 + word / 0x1000 % 16 * 0x1000
                    + word % 0x1000
  {
    assert word / 0x1000 / 16 == word / 0x1_0000 && word / 0x1_0000 / 16 == word / 0x10_0000;
  }

  /**
   The three forms of an assembler: [Rn, #off], [Rn, #off]! and [Rn], #off, with the base and the
   target different.
   */
  lemma LoadForms(d: Ldr, regs: Regs, mem: Memory)
    requires d.rn < 16 && d.rt < 16 && d.rn != d.rt
    ensures var off: int := if d.u then d.imm as int else -(d.imm as int);
            var there := (regs[d.rn] + off) % 0x1_0000_0000;
            var regs' := ExecuteLdr(d, regs, mem);
            && (forall r :: 0 <= r < 16 && r != d.rn && r != d.rt ==> regs'[r] == regs[r])
            && regs'[d.rt] == mem(if d.p then there else regs[d.rn])
            && regs'[d.rn] == if d.p && !d.w then regs[d.rn] else there
  {
  }

  /** A8.8.63: the address before or after indexing, the load, and the write-back. */
  function ExecuteLdr(d: Ldr, regs: Regs, mem: Memory): Regs
    requires d.rn < 16 && d.rt < 16
  {
    var offset := Wrap(if d.u then regs[d.rn] + d.imm else regs[d.rn] - d.imm);
    var address := if d.p then offset else regs[d.rn];
    var based := if !d.p || d.w then Set(regs, d.rn, offset) else regs;
    Set(based, d.rt, mem(address))
  }

  /** Runs loads in order up to any other instruction; a load of the program counter leaves the sequence. */
  function Run(words: seq<Word>, regs: Regs, mem: Memory): Regs {
    if words == [] || !IsLdr(words[0]) then regs else
    var d := DecodeLdr(words[0]);
    var regs' := ExecuteLdr(d, regs, mem);
    if d.rt == PC then regs' else Run(words[1..], regs', mem)
  }

  // ----- LDMIA

  type RegList = s: seq<bool> | |s| == 16 witness seq(16, _ => false)

  /** A8.8.58 without write-back: registers in ascending order from consecutive words. */
  function LdmFrom(list: RegList, i: nat, address: Word, regs: Regs, mem: Memory): Regs
    requires i <= 16
    decreases 16 - i
  {
    if i == 16 then regs
    else if list[i] then LdmFrom(list, i + 1, Wrap(address + 4), Set(regs, i, mem(address)), mem)
    else LdmFrom(list, i + 1, address, regs, mem)
  }

  function Ldm(list: RegList, base: nat, regs: Regs, mem: Memory): Regs
    requires base < 16
  {
    LdmFrom(list, 0, regs[base], regs, mem)
  }

  /** How many listed registers come before `r`. */
  function Rank(list: RegList, r: nat): (n: nat)
    requires r <= 16
    ensures n <= r
  {
    if r == 0 then 0 else Rank(list, r - 1) + if list[r - 1] then 1 else 0
  }

  lemma RankNext(list: RegList, r: nat)
    requires r < 16
    ensures Rank(list, r + 1) == Rank(list, r) + if list[r] then 1 else 0
  {
  }

  lemma WrapSmall(address: Word)
    ensures Wrap(address) == address
  {
  }

  // ----- the rewritten sequence

  /** Loads of the listed registers from `i` on, the base register left out. */
  function OthersFrom(list: RegList, base: nat, i: nat): (words: seq<Word>)
    requires base < 16 && i <= 16
    decreases 16 - i
  {
    if i == 16 then []
    else if list[i] && i != base then [EncodeLdr(i, base, 4 * Rank(list, i))] + OthersFrom(list, base, i + 1)
    else OthersFrom(list, base, i + 1)
  }

  /** The delayed load of the base register, if it is listed. */
  function Delayed(list: RegList, base: nat): seq<Word>
    requires base < 16
  {
    if list[base] then [EncodeLdr(base, base, 4 * Rank(list, base))] else []
  }

  /** The emitted words from register `i` on. */
  function Emission(list: RegList, base: nat, i: nat): seq<Word>
    requires base < 16 && i <= 16
  {
    OthersFrom(list, base, i) + Delayed(list, base)
  }

  function Loads(list: RegList, base: nat): seq<Word>
    requires base < 16
  {
    Emission(list, base, 0)
  }

  lemma {:induction false} LoadsAreLdr(list: RegList, base: nat, i: nat)
    requires base < 16 && i <= 16
    ensures forall k :: 0 <= k < |OthersFrom(list, base, i)| ==> IsLdr(OthersFrom(list, base, i)[k])
    ensures forall k :: 0 <= k < |Delayed(list, base)| ==> IsLdr(Delayed(list, base)[k])
    decreases 16 - i
  {
    hide IsLdr, EncodeLdr;
    if list[base] {
      DecodeEncoded(base, base, 4 * Rank(list, base));
    }
    if i < 16 {
      LoadsAreLdr(list, base, i + 1);
      DecodeEncoded(i, base, 4 * Rank(list, i));
    }
  }

  lemma {:induction false} OthersCount(list: RegList, base: nat, i: nat)
    requires base < 16 && i <= 16
    ensures |OthersFrom(list, base, i)| + Rank(list, i) + (if i <= base && list[base] then 1 else 0) == Rank(list, 16)
    decreases 16 - i
  {
    if i < 16 {
      OthersCount(list, base, i + 1);
    }
  }

  /** One load per listed register: with the two words of the jump never more than 20. */
  lemma LoadCount(list: RegList, base: nat)
    requires base < 16
    ensures |Loads(list, base)| == Rank(list, 16) && |Loads(list, base)| + 2 <= 20
  {
    OthersCount(list, base, 0);
  }

  // ----- both forms, register by register

  /** What register `r` holds once the listed registers below `i` are loaded. */
  function Expected(list: RegList, base: nat, i: nat, regs: Regs, mem: Memory, r: nat): Word
    requires base < 16 && i <= 16 && r < 16
  {
    if list[r] && r < i then mem(Wrap(regs[base] + 4 * Rank(list, r))) else regs[r]
  }

  lemma {:induction false} LdmRegister(list: RegList, i: nat, address: Word, regs: Regs, mem: Memory, r: nat)
    requires i <= 16 && r < 16
    ensures LdmFrom(list, i, address, regs, mem)[r]
         == if r >= i && list[r] then mem(Wrap(address + 4 * (Rank(list, r) - Rank(list, i)))) else regs[r]
    decreases 16 - i
  {
    hide Wrap, Set, Rank;
    if i < 16 {
      RankNext(list, i);
      if list[i] {
        LdmRegister(list, i + 1, Wrap(address + 4), Set(regs, i, mem(address)), mem, r);
        WrapAdd(address + 4, 4 * (Rank(list, r) - Rank(list, i + 1)));
        SetAt(regs, i, mem(address), r);
        WrapSmall(address);
      } else {
        LdmRegister(list, i + 1, address, regs, mem, r);
      }
    }
  }

  lemma LdmExpected(list: RegList, base: nat, regs: Regs, mem: Memory, r: nat)
    requires base < 16 && r < 16
    ensures Ldm(list, base, regs, mem)[r] == Expected(list, base, 16, regs, mem, r)
  {
    LdmRegister(list, 0, regs[base], regs, mem, r);
  }

  /** The effect of the loads from `i` on, as long as nothing leaves the sequence. */
  function AfterOthers(list: RegList, base: nat, i: nat, regs: Regs, mem: Memory): Regs
    requires base < 16 && i <= 16
    decreases 16 - i
  {
    if i == 16 then regs
    else if list[i] && i != base then
      AfterOthers(list, base, i + 1, Set(regs, i, mem(Wrap(regs[base] + 4 * Rank(list, i)))), mem)
    else AfterOthers(list, base, i + 1, regs, mem)
  }

  /** One emitted load. */
  lemma ExecuteEncoded(rt: nat, rn: nat, imm: nat, regs: Regs, mem: Memory)
    requires rt < 16 && rn < 16 && imm < 0x1000
    ensures var d := DecodeLdr(EncodeLdr(rt, rn, imm));
            && IsLdr(EncodeLdr(rt, rn, imm)) && d.rt == rt
            && ExecuteLdr(d, regs, mem) == Set(regs, rt, mem(Wrap(regs[rn] + imm)))
  {
    DecodeEncoded(rt, rn, imm);
    hide DecodeLdr, EncodeLdr, Set;
  }

  /** An emitted load in front of other words. */
  lemma RunHead(rt: nat, rn: nat, imm: nat, words: seq<Word>, regs: Regs, mem: Memory)
    requires rt < 16 && rn < 16 && imm < 0x1000
    ensures var regs' := Set(regs, rt, mem(Wrap(regs[rn] + imm)));
            Run([EncodeLdr(rt, rn, imm)] + words, regs, mem) == if rt == PC then regs' else Run(words, regs', mem)
  {
    hide *;
    ExecuteEncoded(rt, rn, imm, regs, mem);
    var all := [EncodeLdr(rt, rn, imm)] + words;
    assert all[0] == EncodeLdr(rt, rn, imm) && all[1..] == words;
    RunLoad(all, regs, mem);
  }

  lemma RunLoad(words: seq<Word>, regs: Regs, mem: Memory)
    requires words != [] && IsLdr(words[0])
    ensures var d := DecodeLdr(words[0]);
            var regs' := ExecuteLdr(d, regs, mem);
            Run(words, regs, mem) == if d.rt == PC then regs' else Run(words[1..], regs', mem)
  {
    hide IsLdr, DecodeLdr, ExecuteLdr;
  }

  /** What the loads from `i` on together with the delayed one do. */
  function Outcome(list: RegList, base: nat, i: nat, regs: Regs, mem: Memory): Regs
    requires base < 16 && i <= 16
  {
    var after := AfterOthers(list, base, i, regs, mem);
    if list[PC] then after else Run(Delayed(list, base), after, mem)
  }

  lemma OutcomeHead(list: RegList, base: nat, i: nat, regs: Regs, mem: Memory)
    requires base < 13 && i < 16 && list[i] && i != base
    ensures var regs' := Set(regs, i, mem(Wrap(regs[base] + 4 * Rank(list, i))));
            && Run(Emission(list, base, i), regs, mem)
            == (if i == PC then regs' else Run(Emission(list, base, i + 1), regs', mem))
            && Outcome(list, base, i, regs, mem) == (if i == PC then regs' else Outcome(list, base, i + 1, regs', mem))
  {
    hide *;
    EmissionHead(list, base, i);
    RunHead(i, base, 4 * Rank(list, i), Emission(list, base, i + 1), regs, mem);
    AfterHead(list, base, i, regs, mem);
  }

  lemma EmissionHead(list: RegList, base: nat, i: nat)
    requires base < 16 && i < 16 && list[i] && i != base
    ensures Emission(list, base, i) == [EncodeLdr(i, base, 4 * Rank(list, i))] + Emission(list, base, i + 1)
  {
    hide EncodeLdr, Delayed, Rank;
  }

  lemma AfterHead(list: RegList, base: nat, i: nat, regs: Regs, mem: Memory)
    requires base < 13 && i < 16 && list[i] && i != base
    ensures var regs' := Set(regs, i, mem(Wrap(regs[base] + 4 * Rank(list, i))));
            Outcome(list, base, i, regs, mem) == (if i == PC then regs' else Outcome(list, base, i + 1, regs', mem))
  {
    hide Wrap, Delayed, Set, Rank, Run;
  }

  lemma OutcomeSkip(list: RegList, base: nat, i: nat, regs: Regs, mem: Memory)
    requires base < 13 && i < 16 && !(list[i] && i != base)
    ensures Emission(list, base, i) == Emission(list, base, i + 1)
    ensures Outcome(list, base, i, regs, mem) == Outcome(list, base, i + 1, regs, mem)
  {
    hide EncodeLdr, Wrap, Delayed, Set, Rank, Run;
  }

  lemma OutcomeEnd(list: RegList, base: nat, regs: Regs, mem: Memory)
    requires base < 13 && !list[PC]
    ensures Run(Emission(list, base, 16), regs, mem) == Outcome(list, base, 16, regs, mem)
  {
    hide Run, Delayed;
    assert Emission(list, base, 16) == Delayed(list, base);
  }

  lemma {:induction false} RunOthers(list: RegList, base: nat, i: nat, regs: Regs, mem: Memory)
    requires base < 13 && i <= 16 && (i == 16 ==> !list[PC])
    ensures Run(Emission(list, base, i), regs, mem) == Outcome(list, base, i, regs, mem)
    decreases 16 - i
  {
    hide Run, Wrap, Set, Rank, Outcome, Emission;
    if i == 16 {
      OutcomeEnd(list, base, regs, mem);
    } else if list[i] && i != base {
      OutcomeHead(list, base, i, regs, mem);
      if i < PC {
        RunOthers(list, base, i + 1, Set(regs, i, mem(Wrap(regs[base] + 4 * Rank(list, i)))), mem);
      }
    } else {
      OutcomeSkip(list, base, i, regs, mem);
      RunOthers(list, base, i + 1, regs, mem);
    }
  }

  lemma {:induction false} AfterRegister(list: RegList, base: nat, i: nat, regs: Regs, mem: Memory, r: nat)
    requires base < 16 && i <= 16 && r < 16
    ensures AfterOthers(list, base, i, regs, mem)[r]
         == if r >= i && r != base && list[r] then mem(Wrap(regs[base] + 4 * Rank(list, r))) else regs[r]
    decreases 16 - i
  {
    hide Wrap;
    if i < 16 {
      if list[i] && i != base {
        AfterRegister(list, base, i + 1, Set(regs, i, mem(Wrap(regs[base] + 4 * Rank(list, i)))), mem, r);
      } else {
        AfterRegister(list, base, i + 1, regs, mem, r);
      }
    }
  }

  lemma RunDelayed(list: RegList, base: nat, regs: Regs, mem: Memory)
    requires base < 13
    ensures Run(Delayed(list, base), regs, mem)
         == if list[base] then Set(regs, base, mem(Wrap(regs[base] + 4 * Rank(list, base)))) else regs
  {
    hide IsLdr, EncodeLdr, DecodeLdr, ExecuteLdr, Wrap;
    LoadsAreLdr(list, base, 0);
    if list[base] {
      ExecuteEncoded(base, base, 4 * Rank(list, base), regs, mem);
      assert Delayed(list, base)[1..] == [];
    }
  }

  /** What the emitted loads leave in register `r`. */
  lemma RunExpected(list: RegList, base: nat, regs: Regs, mem: Memory, r: nat)
    requires base < 13 && r < 16
    ensures Run(Loads(list, base), regs, mem)[r]
         == (if list[PC] && r == base then regs[r] else Expected(list, base, 16, regs, mem, r))
  {
    hide IsLdr, Wrap, Run, Delayed, OthersFrom, AfterOthers, Set, Rank;
    RunOthers(list, base, 0, regs, mem);
    var after := AfterOthers(list, base, 0, regs, mem);
    AfterRegister(list, base, 0, regs, mem, r);
    AfterRegister(list, base, 0, regs, mem, base);
    RunDelayed(list, base, after, mem);
    SetAt(after, base, mem(Wrap(after[base] + 4 * Rank(list, base))), r);
  }

  /**
   The rewritten sequence leaves the same registers as the LDMIA, base in the list or
   not, unless the list holds both the base and the program counter.
   */
  lemma RewritePreserves(list: RegList, base: nat, regs: Regs, mem: Memory)
    requires base < 13 && !(list[PC] && list[base])
    ensures forall k :: 0 <= k < |Loads(list, base)| ==> IsLdr(Loads(list, base)[k])
    ensures Run(Loads(list, base), regs, mem) == Ldm(list, base, regs, mem)
  {
    LoadsAreLdr(list, base, 0);
    forall r | 0 <= r < 16
      ensures Run(Loads(list, base), regs, mem)[r] == Ldm(list, base, regs, mem)[r]
    {
      RunExpected(list, base, regs, mem, r);
      LdmExpected(list, base, regs, mem, r);
    }
  }

  /** In that one case the delayed load comes after the jump and the base is not loaded. */
  lemma RewriteExact(list: RegList, base: nat)
    requires base < 13
    ensures forall k :: 0 <= k < |Loads(list, base)| ==> IsLdr(Loads(list, base)[k])
    ensures (forall regs: Regs, mem: Memory :: Run(Loads(list, base), regs, mem) == Ldm(list, base, regs, mem))
            <==> !(list[PC] && list[base])
  {
    LoadsAreLdr(list, base, 0);
    if list[PC] && list[base] {
      var regs: Regs, mem: Memory := seq(16, _ => 0), _ => 1;
      RunExpected(list, base, regs, mem, base);
      LdmExpected(list, base, regs, mem, base);
      assert Run(Loads(list, base), regs, mem) != Ldm(list, base, regs, mem);
    } else {
      forall regs: Regs, mem: Memory
        ensures Run(Loads(list, base), regs, mem) == Ldm(list, base, regs, mem)
      {
        RewritePreserves(list, base, regs, mem);
      }
    }
  }

  // ----- building the sequence

  function Pow2(i: nat): nat {
    if i == 0 then 1 else 2 * Pow2(i - 1)
  }

  predicate Bit(word: Word, i: nat) {
    Pow2(i) > 0 && word / Pow2(i) % 2 == 1
  }

  function ListOf(instr: Word): RegList {
    seq(16, i requires 0 <= i => Bit(instr, i))
  }

  function BaseOf(instr: Word): (b: nat)
    ensures b < 16
  {
    instr / 0x1_0000 % 16
  }

  /** An LDMIA without write-back and with a base of R0 to R12. */
  predicate IsLdm(instr: Word) {
    instr / 0x10_0000 == 0xE89 && BaseOf(instr) < 13
  }

  // ----- LDMIA words

  /** The register list as a number: the sum of 2^r over the listed registers below `i`. */
  function RegisterBits(list: RegList, i: nat): nat
    requires i <= 16
  {
    if i == 0 then 0 else RegisterBits(list, i - 1) + if list[i - 1] then Pow2(i - 1) else 0
  }

  /** A8.8.58, A32 without write-back: cond 1000 1001 Rn register_list, always executed. */
  function EncodeLdm(list: RegList, base: nat): Word
    requires base < 16
  {
    BitsSmall(list, 16);
    0xE890_0000 + base * 0x1_0000 + RegisterBits(list, 16)
  }

  lemma PowersOfTwo()
    ensures Pow2(0) == 1 && Pow2(4) == 16 && Pow2(8) == 0x100 && Pow2(12) == 0x1000 && Pow2(16) == 0x1_0000
  {
    assert Pow2(4) == 2 * Pow2(3) == 4 * Pow2(2) == 8 * Pow2(1) == 16 * Pow2(0);
    assert Pow2(8) == 2 * Pow2(7) == 4 * Pow2(6) == 8 * Pow2(5) == 16 * Pow2(4);
    assert Pow2(12) == 2 * Pow2(11) == 4 * Pow2(10) == 8 * Pow2(9) == 16 * Pow2(8);
    assert Pow2(16) == 2 * Pow2(15) == 4 * Pow2(14) == 8 * Pow2(13) == 16 * Pow2(12);
  }

  lemma {:induction false} BitsSmall(list: RegList, i: nat)
    requires i <= 16
    ensures RegisterBits(list, i) < Pow2(i) && (i == 16 ==> Pow2(i) == 0x1_0000)
  {
    if i > 0 {
      BitsSmall(list, i - 1);
    }
    PowersOfTwo();
  }

  /** The number with the listed registers from `i` on as its low bits and `high` above them. */
  function Doubled(list: RegList, i: nat, high: nat): nat
    requires i <= 16
    decreases 16 - i
  {
    if i == 16 then high else 2 * Doubled(list, i + 1, high) + if list[i] then 1 else 0
  }

  lemma DoubledNext(list: RegList, i: nat, high: nat)
    requires i < 16
    ensures Doubled(list, i, high) == 2 * Doubled(list, i + 1, high) + if list[i] then 1 else 0
  {
  }

  lemma BitsNext(list: RegList, i: nat)
    requires i < 16
    ensures RegisterBits(list, i + 1) == RegisterBits(list, i) + if list[i] then Pow2(i) else 0
    ensures Pow2(i + 1) == 2 * Pow2(i) && Pow2(0) == 1 && RegisterBits(list, 0) == 0
  {
  }

  lemma Redistribute(d: nat, b: nat, p: nat)
    ensures (2 * d + b) * p == d * (2 * p) + b * p
  {
  }

  lemma {:induction false} DoubledIsSum(list: RegList, i: nat, high: nat)
    requires i <= 16
    ensures Doubled(list, 0, high) == Doubled(list, i, high) * Pow2(i) + RegisterBits(list, i)
  {
    hide Doubled, Pow2, RegisterBits;
    BitsNext(list, 0);
    if i > 0 {
      DoubledIsSum(list, i - 1, high);
      DoubledNext(list, i - 1, high);
      BitsNext(list, i - 1);
      Redistribute(Doubled(list, i, high), if list[i - 1] then 1 else 0, Pow2(i - 1));
    }
  }

  lemma EncodedIsDoubled(list: RegList, base: nat)
    requires base < 16
    ensures EncodeLdm(list, base) == Doubled(list, 0, 0xE890 + base)
  {
    DoubledIsSum(list, 16, 0xE890 + base);
    PowersOfTwo();
    hide RegisterBits, Pow2;
  }

  lemma QuotientUnique(x: nat, d: nat, q: nat, r: nat)
    requires x == q * d + r && r < d
    ensures x / d == q
  {
    var q' := x / d;
    assert x == q' * d + x % d;
    if q' > q {
      Larger(q', q, d);
    } else if q' < q {
      Larger(q, q', d);
    }
  }

  lemma {:induction false} Larger(a: nat, b: nat, d: nat)
    requires a > b
    ensures a * d >= b * d + d
  {
    assert a * d == (a - 1) * d + d;
    if a - 1 > b {
      Larger(a - 1, b, d);
    }
  }

  lemma HalfFirst(x: nat, p: nat)
    requires p > 0
    ensures x / (2 * p) == x / 2 / p
  {
    var h := x / 2;
    var q, r := h / p, h % p;
    assert h == q * p + r;
    assert x == q * (2 * p) + (2 * r + x % 2) by {
      assert 2 * (q * p) == q * (2 * p);
    }
    QuotientUnique(x, 2 * p, q, 2 * r + x % 2);
  }

  lemma {:induction false} Pow2Positive(i: nat)
    ensures Pow2(i) > 0
  {
    if i > 0 {
      Pow2Positive(i - 1);
    }
  }

  /** Bit `r` of the number is register `r`. */
  lemma {:induction false} DoubledBit(list: RegList, i: nat, high: nat, r: nat)
    requires i <= r < 16
    ensures Pow2(r - i) > 0 && (Doubled(list, i, high) / Pow2(r - i) % 2 == 1 <==> list[r])
    decreases r - i
  {
    hide Doubled, Pow2;
    DoubledNext(list, i, high);
    Pow2Positive(r - i);
    if i == r {
      PowersOfTwo();
    } else {
      DoubledBit(list, i + 1, high, r);
      Pow2Positive(r - i - 1);
      Pow2Next(r - i - 1);
      HalfFirst(Doubled(list, i, high), Pow2(r - i - 1));
    }
  }

  lemma Pow2Next(i: nat)
    ensures Pow2(i + 1) == 2 * Pow2(i)
  {
  }

  /** Base and list of an encoded LDMIA are read back, and it is one the pass replaces exactly for a base below 13. */
  lemma DecodeLdmEncoded(list: RegList, base: nat)
    requires base < 16
    ensures BaseOf(EncodeLdm(list, base)) == base && ListOf(EncodeLdm(list, base)) == list
    ensures IsLdm(EncodeLdm(list, base)) <==> base < 13
  {
    ListOfEncoded(list, base);
    hide RegisterBits, ListOf, Pow2;
    BitsSmall(list, 16);
    LdmFields(base, RegisterBits(list, 16));
  }

  lemma ListOfEncoded(list: RegList, base: nat)
    requires base < 16
    ensures ListOf(EncodeLdm(list, base)) == list
  {
    hide EncodeLdm, Doubled, Pow2;
    EncodedIsDoubled(list, base);
    var word := EncodeLdm(list, base);
    forall r | 0 <= r < 16
      ensures ListOf(word)[r] == list[r]
    {
      DoubledBit(list, 0, 0xE890 + base, r);
    }
  }

  lemma LdmFields(base: nat, bits: nat)
    requires base < 16 && bits < 0x1_0000
    ensures var word := 0xE890_0000 + base * 0x1_0000 + bits;
            word / 0x1_0000 % 16 == base && word / 0x10_0000 == 0xE89
  {
    var word := 0xE890_0000 + base * 0x1_0000 + bits;
    assert word / 0x1_0000 == 0xE890 + base;
  }

  /** A word without its low `i` bits is made of the bits from `i` on. */
  lemma {:induction false} WordDoubled(word: Word, i: nat)
    requires i <= 16
    ensures Pow2(i) > 0 && word / Pow2(i) == Doubled(ListOf(word), i, word / 0x1_0000)
    decreases 16 - i
  {
    Pow2Positive(i);
    if i == 16 {
      PowersOfTwo();
    } else {
      WordDoubled(word, i + 1);
      TwiceThenTwo(word, Pow2(i));
      assert ListOf(word)[i] == Bit(word, i);
    }
  }

  lemma TwiceThenTwo(x: nat, p: nat)
    requires p > 0
    ensures x / p == 2 * (x / (2 * p)) + x / p % 2
  {
    var q, r := x / p, x % p;
    assert x == q * p + r;
    var h, b := q / 2, q % 2;
    assert x == h * (2 * p) + (b * p + r) by {
      assert (2 * h + b) * p == h * (2 * p) + b * p;
    }
    assert b * p + r < 2 * p;
    QuotientUnique(x, 2 * p, h, b * p + r);
  }

  /** Every word the pass replaces is the encoding of an LDMIA with that base and list. */
  lemma LdmIsEncoded(word: Word)
    requires IsLdm(word)
    ensures word == EncodeLdm(ListOf(word), BaseOf(word))
  {
    hide Doubled, ListOf, EncodeLdm, Pow2;
    PowersOfTwo();
    WordDoubled(word, 0);
    EncodedIsDoubled(ListOf(word), BaseOf(word));
    TopHalf(word);
  }

  lemma TopHalf(word: nat)
    ensures word / 0x1_0000 == word / 0x10_0000 * 16 + word / 0x1_0000 % 16
  {
    assert word / 0x1_0000 / 16 == word / 0x10_0000;
  }

  /** Words of the manual's tables, assembled by hand: LDR R1, [R4, #8]; LDR R0, [SP, #-4]; LDMIA R4, {R0, R1}. */
  lemma KnownWords()
    ensures EncodeLdr(1, 4, 8) == 0xE594_1008 && EncodeLdr(0, 13, -4) == 0xE51D_0004
    ensures var list: RegList := [true, true] + seq(14, _ => false); EncodeLdm(list, 4) == 0xE894_0003
  {
    var list: RegList := [true, true] + seq(14, _ => false);
    FewBits(list, 16);
    BitsNext(list, 0);
    BitsNext(list, 1);
  }

  lemma {:induction false} FewBits(list: RegList, i: nat)
    requires 2 <= i <= 16 && forall r :: 2 <= r < 16 ==> !list[r]
    ensures RegisterBits(list, i) == RegisterBits(list, 2)
  {
    if i > 2 {
      FewBits(list, i - 1);
    }
  }

  /** `words` are the loads of the listed registers below `i`, the base register left out. */
  ghost predicate Emitted(words: seq<Word>, list: RegList, base: nat, i: nat)
    requires base < 16 && i <= 16
  {
    |words| <= i && words + OthersFrom(list, base, i) == OthersFrom(list, base, 0)
  }

  lemma EmittedStep(words: seq<Word>, list: RegList, base: nat, i: nat)
    requires base < 16 && i < 16 && Emitted(words, list, base, i)
    ensures Rank(list, i + 1) == Rank(list, i) + if list[i] then 1 else 0
    ensures if list[i] && i != base then Emitted(words + [EncodeLdr(i, base, 4 * Rank(list, i))], list, base, i + 1)
            else Emitted(words, list, base, i + 1)
  {
    hide EncodeLdr;
    if list[i] && i != base {
      var w := EncodeLdr(i, base, 4 * Rank(list, i));
      assert words + ([w] + OthersFrom(list, base, i + 1)) == words + [w] + OthersFrom(list, base, i + 1);
    }
  }

  lemma EmittedEnds(list: RegList, base: nat, words: seq<Word>)
    requires base < 16
    ensures Emitted([], list, base, 0) && Rank(list, 0) == 0 && StoredBelow(list, base, 0) == 0
    ensures Emitted(words, list, base, 16) ==> words + Delayed(list, base) == Loads(list, base)
    ensures EncodeLdr(base, base, 4 * Rank(list, base)) != 0
  {
    assert OthersFrom(list, base, 16) == [];
  }

  /** The loads in list order; that of the base register is only kept in `stored`. */
  method EmitOthers(list: RegList, base: nat) returns (funct: array<Word>, n: nat, stored: Word)
    requires base < 16
    ensures fresh(funct) && funct.Length == 20 && n <= 16
    ensures Emitted(funct[..n], list, base, 16)
    ensures stored == StoredBelow(list, base, 16)
  {
    hide *;
    funct := new Word[20](_ => 0);
    var cur, i := 0, 0;
    n := 0;
    EmittedEnds(list, base, []);
    stored := 0;
    assert funct[..0] == [];
    while i < 16
      invariant 0 <= i <= 16 && cur == 4 * Rank(list, i) && n <= i
      invariant Emitted(funct[..n], list, base, i) && stored == StoredBelow(list, base, i)
    {
      n, cur, stored := EmitOne(list, base, i, funct, n, cur, stored);
      i := i + 1;
    }
  }

  /** The delayed load once the registers below `i` are through; 0 before. */
  function StoredBelow(list: RegList, base: nat, i: nat): Word
    requires base < 16
  {
    if base < i && list[base] then EncodeLdr(base, base, 4 * Rank(list, base)) else 0
  }

  /** One round of the loop: the load of register `i`, if it is listed. */
  method EmitOne(list: RegList, base: nat, i: nat, funct: array<Word>, n: nat, cur: nat, stored: Word)
    returns (n': nat, cur': nat, stored': Word)
    requires base < 16 && i < 16 && n <= i && funct.Length == 20 && cur == 4 * Rank(list, i)
    requires Emitted(funct[..n], list, base, i) && stored == StoredBelow(list, base, i)
    modifies funct
    ensures n' <= i + 1 && cur' == 4 * Rank(list, i + 1)
    ensures Emitted(funct[..n'], list, base, i + 1) && stored' == StoredBelow(list, base, i + 1)
  {
    EmittedStep(funct[..n], list, base, i);
    hide EncodeLdr, Emitted, Rank;
    n', cur', stored' := n, cur, stored;
    if list[i] {
      if base == i {
        stored' := EncodeLdr(i, base, cur);
      } else {
        n' := Append(funct, n, EncodeLdr(i, base, cur));
      }
      cur' := cur + 4;
    }
  }

  method Append(funct: array<Word>, n: nat, word: Word) returns (next: nat)
    requires n < funct.Length
    modifies funct
    ensures next == n + 1 && funct[..next] == old(funct[..n]) + [word]
  {
    funct[n] := word;
    next := n + 1;
  }

  /** The loads for one LDMIA in a buffer of twenty words. */
  method BuildLoads(instr: Word) returns (funct: array<Word>, n: nat)
    ensures fresh(funct) && funct.Length == 20 && n + 2 <= 20
    ensures funct[..n] == Loads(ListOf(instr), BaseOf(instr))
  {
    var base, list := BaseOf(instr), ListOf(instr);
    var stored;
    funct, n, stored := EmitOthers(list, base);
    EmittedEnds(list, base, funct[..n]);
    LoadCount(list, base);
    hide EncodeLdr, Emitted, Rank, ListOf, BaseOf, Loads, OthersFrom;
    ghost var words := funct[..n];
    if stored != 0 {
      funct[n] := stored;
      n := n + 1;
    }
    assert funct[..n] == words + Delayed(list, base);
  }
}
