/**
 Relocating an image and resolving its imports: two passes over the relocations, whose
 cells are four bytes of memory each, read and written as little-endian words.
 */
module SoRelocate {
  import opened Basics
  import opened SoSymbols

  const R_ARM_ABS32 := 2
  const R_ARM_GLOB_DAT := 21
  const R_ARM_JUMP_SLOT := 22
  const R_ARM_RELATIVE := 23
  const STB_WEAK := 2

  datatype Rel = Rel(offset: Word, kind: nat, sym: nat)

  predicate Known(kind: nat) {
    kind == R_ARM_ABS32 || kind == R_ARM_RELATIVE || kind == R_ARM_GLOB_DAT || kind == R_ARM_JUMP_SLOT
  }

  /** The kinds that name a symbol. */
  predicate Symbolic(kind: nat) {
    kind == R_ARM_ABS32 || kind == R_ARM_GLOB_DAT || kind == R_ARM_JUMP_SLOT
  }

  predicate Weak(sym: Symbol) {
    sym.info % 256 / 16 == STB_WEAK
  }

  // ----- words in byte memory

  type Memory = map<int, Byte>

  predicate Mapped(mem: Memory, a: int) {
    a in mem && a + 1 in mem && a + 2 in mem && a + 3 in mem
  }

  function ReadWord(mem: Memory, a: int): Word
    requires Mapped(mem, a)
  {
    GetWord([mem[a], mem[a + 1], mem[a + 2], mem[a + 3]], 0)
  }

  /** memcpy of a word. */
  function WriteWord(mem: Memory, a: int, w: Word): Memory {
    CopyTo(mem, a, 1, PutWord(w))
  }

  /** The four bytes at `a` and those at `b` do not meet. */
  predicate Apart4(a: int, b: int) {
    a + 4 <= b || b + 4 <= a
  }

  lemma WriteByte(mem: Memory, a: int, w: Word, b: int)
    ensures b in WriteWord(mem, a, w) <==> a <= b < a + 4 || b in mem
    ensures a <= b < a + 4 ==> WriteWord(mem, a, w)[b] == PutWord(w)[b - a]
    ensures !(a <= b < a + 4) && b in mem ==> WriteWord(mem, a, w)[b] == mem[b]
  {
    hide PutWord, CopyTo;
    CopyReads(mem, a, PutWord(w), b);
  }

  lemma WriteKeys(mem: Memory, a: int, w: Word)
    requires Mapped(mem, a)
    ensures WriteWord(mem, a, w).Keys == mem.Keys
  {
    hide WriteWord;
    forall b
      ensures b in WriteWord(mem, a, w) <==> b in mem
    {
      WriteByte(mem, a, w, b);
    }
  }

  /** A word is read back after it was written. */
  lemma ReadBack(mem: Memory, a: int, w: Word)
    ensures Mapped(WriteWord(mem, a, w), a) && ReadWord(WriteWord(mem, a, w), a) == w
  {
    hide WriteWord, PutWord, GetWord;
    WriteByte(mem, a, w, a);
    WriteByte(mem, a, w, a + 1);
    WriteByte(mem, a, w, a + 2);
    WriteByte(mem, a, w, a + 3);
    var mem' := WriteWord(mem, a, w);
    assert [mem'[a], mem'[a + 1], mem'[a + 2], mem'[a + 3]] == PutWord(w);
    WordBytes(w);
  }

  /** Writing what is there changes nothing. */
  lemma WriteSame(mem: Memory, a: int)
    requires Mapped(mem, a)
    ensures WriteWord(mem, a, ReadWord(mem, a)) == mem
  {
    var bytes := [mem[a], mem[a + 1], mem[a + 2], mem[a + 3]];
    BytesWord(bytes);
    WriteKeys(mem, a, GetWord(bytes, 0));
    hide WriteWord, PutWord, GetWord;
    forall b | b in mem
      ensures WriteWord(mem, a, GetWord(bytes, 0))[b] == mem[b]
    {
      WriteByte(mem, a, GetWord(bytes, 0), b);
      assert a <= b < a + 4 ==> bytes[b - a] == mem[b];
    }
  }

  /** The last of two writes counts. */
  lemma WriteTwice(mem: Memory, a: int, v: Word, w: Word)
    ensures WriteWord(WriteWord(mem, a, v), a, w) == WriteWord(mem, a, w)
  {
    hide WriteWord, PutWord;
    var once, twice := WriteWord(mem, a, w), WriteWord(WriteWord(mem, a, v), a, w);
    forall b
      ensures (b in twice <==> b in once) && (b in once ==> twice[b] == once[b])
    {
      WriteByte(mem, a, v, b);
      WriteByte(mem, a, w, b);
      WriteByte(WriteWord(mem, a, v), a, w, b);
    }
    assert twice.Keys == once.Keys;
  }

  /** A word that does not meet the one written stays. */
  lemma ReadElsewhere(mem: Memory, a: int, w: Word, b: int)
    requires Mapped(mem, b) && Apart4(a, b)
    ensures Mapped(WriteWord(mem, a, w), b) && ReadWord(WriteWord(mem, a, w), b) == ReadWord(mem, b)
  {
    hide WriteWord, PutWord, GetWord;
    WriteByte(mem, a, w, b);
    WriteByte(mem, a, w, b + 1);
    WriteByte(mem, a, w, b + 2);
    WriteByte(mem, a, w, b + 3);
  }

  /** The parts of a mapped module the two passes read. */
  datatype Object = Object(base: Word, syms: seq<Symbol>, reldyn: seq<Rel>, relplt: seq<Rel>) {
    function Count(): nat {
      |reldyn| + |relplt|
    }

    /** Both relocation sections as one. */
    function At(i: nat): Rel
      requires i < Count()
    {
      if i < |reldyn| then reldyn[i] else relplt[i - |reldyn|]
    }

    function Cell(i: nat): Word
      requires i < Count()
    {
      Wrap(base + At(i).offset)
    }

    predicate SymbolsExist() {
      forall i :: 0 <= i < Count() ==> At(i).sym < |syms|
    }

    function Sym(i: nat): Symbol
      requires i < Count() && SymbolsExist()
    {
      syms[At(i).sym]
    }

    predicate CellsMapped(mem: Memory) {
      forall i :: 0 <= i < Count() ==> Mapped(mem, Cell(i))
    }

    /** No two cells share a byte. */
    predicate CellsApart() {
      forall i, j :: 0 <= i < j < Count() ==> Apart4(Cell(i), Cell(j))
    }

    /** A byte that belongs to no cell of the first `n` relocations. */
    predicate Outside(b: int, n: nat)
      requires n <= Count()
    {
      forall i :: 0 <= i < n ==> !(Cell(i) <= b < Cell(i) + 4)
    }
  }

  /** Where imports come from: the table of the port, and the loaded modules unless only the table counts. */
  datatype Imports = Imports(mods: seq<Module>, self: nat, needed: seq<Name>, table: seq<(Name, Word)>,
                             tableOnly: bool) {
    ghost predicate Searchable() {
      AllSearchable(mods)
    }
  }

  /** The first entry of the table with that name, from `j` on. */
  function TableValue(table: seq<(Name, Word)>, name: Name, j: nat): Option<Word>
    requires j <= |table|
    decreases |table| - j
  {
    if j == |table| then None
    else if table[j].0 == name then Some(table[j].1)
    else TableValue(table, name, j + 1)
  }

  // ----- what IHI 0044 section 4.6 asks for

  /**
   S: the address of the symbol of relocation `i`. The table goes before the modules, and a weak
   symbol may stay at 0.
   */
  ghost function SymbolValue(obj: Object, imports: Imports, i: nat): Option<Word>
    requires i < obj.Count() && obj.SymbolsExist() && imports.Searchable()
  {
    var sym := obj.Sym(i);
    if sym.shndx != SHN_UNDEF then Some(Wrap(obj.base + sym.value))
    else
      var entry := TableValue(imports.table, sym.name, 0);
      var link := if imports.tableOnly then 0 else Link(imports.mods, imports.self, imports.needed, sym.name, 0);
      if entry.Some? then entry
      else if link != 0 then Some(link)
      else if Weak(sym) then Some(0)
      else None
  }

  /** S + A, S or B + A with the old content of the cell as addend A, which is left alone if there is no S. */
  ghost function Wanted(obj: Object, imports: Imports, i: nat, addend: Word): Word
    requires i < obj.Count() && obj.SymbolsExist() && imports.Searchable()
  {
    var kind := obj.At(i).kind;
    if kind == R_ARM_RELATIVE then Wrap(obj.base + addend)
    else if !Symbolic(kind) then addend
    else
      match SymbolValue(obj, imports, i)
      case None => addend
      case Some(s) => if kind == R_ARM_ABS32 then Wrap(s + addend) else s
  }

  /** The relocations whose symbol nobody provides. */
  ghost function Unresolved(obj: Object, imports: Imports, n: nat): set<nat>
    requires n <= obj.Count() && obj.SymbolsExist() && imports.Searchable()
  {
    set i: nat | 0 <= i < n && Symbolic(obj.At(i).kind) && SymbolValue(obj, imports, i).None? :: i
  }

  // ----- the two passes

  datatype Phase = Relocating | Resolving(imports: Imports)

  /** One cell after so_relocate or after so_resolve has dealt with its relocation. */
  ghost function After(obj: Object, phase: Phase, i: nat, cell: Word): Word
    requires i < obj.Count() && obj.SymbolsExist() && (phase.Resolving? ==> phase.imports.Searchable())
  {
    var kind, sym := obj.At(i).kind, obj.Sym(i);
    match phase
    case Relocating =>
      if kind == R_ARM_RELATIVE then Wrap(cell + obj.base)
      else if sym.shndx == SHN_UNDEF || !Symbolic(kind) then cell
      else if kind == R_ARM_ABS32 then Wrap(cell + obj.base + sym.value)
      else Wrap(obj.base + sym.value)
    case Resolving(imports) =>
      if sym.shndx != SHN_UNDEF || !Symbolic(kind) then cell
      else Wanted(obj, imports, i, cell)
  }

  /** Memory after the first `n` relocations. */
  ghost function Pass(obj: Object, phase: Phase, mem: Memory, n: nat): (m: Memory)
    requires n <= obj.Count() && obj.SymbolsExist() && obj.CellsMapped(mem)
    requires phase.Resolving? ==> phase.imports.Searchable()
    ensures m.Keys == mem.Keys
  {
    if n == 0 then mem else
    var before, cell := Pass(obj, phase, mem, n - 1), obj.Cell(n - 1);
    assert Mapped(mem, cell);
    var w := After(obj, phase, n - 1, ReadWord(before, cell));
    WriteKeys(before, cell, w);
    WriteWord(before, cell, w)
  }

  lemma PassStart(obj: Object, phase: Phase, mem: Memory)
    requires obj.SymbolsExist() && obj.CellsMapped(mem) && (phase.Resolving? ==> phase.imports.Searchable())
    ensures Pass(obj, phase, mem, 0) == mem && 0 <= obj.Count()
  {
  }

  lemma PassNext(obj: Object, phase: Phase, mem: Memory, n: nat)
    requires n < obj.Count() && obj.SymbolsExist() && obj.CellsMapped(mem)
    requires phase.Resolving? ==> phase.imports.Searchable()
    ensures var before, cell := Pass(obj, phase, mem, n), obj.Cell(n);
            && Mapped(before, cell)
            && Pass(obj, phase, mem, n + 1) == WriteWord(before, cell, After(obj, phase, n, ReadWord(before, cell)))
  {
    hide After, WriteWord, ReadWord, Wrap;
    assert Mapped(mem, obj.Cell(n));
  }

  /** A pass does its work on each cell once, on what the cell held before, if no other cell meets it. */
  lemma {:induction false} PassCell(obj: Object, phase: Phase, mem: Memory, n: nat, i: nat)
    requires n <= obj.Count() && obj.SymbolsExist() && obj.CellsMapped(mem) && obj.CellsApart() && i < obj.Count()
    requires phase.Resolving? ==> phase.imports.Searchable()
    ensures Mapped(Pass(obj, phase, mem, n), obj.Cell(i))
    ensures var was := ReadWord(mem, obj.Cell(i));
            ReadWord(Pass(obj, phase, mem, n), obj.Cell(i)) == if i < n then After(obj, phase, i, was) else was
  {
    hide After, WriteWord, ReadWord, Wrap;
    assert Mapped(mem, obj.Cell(i));
    if n > 0 {
      PassCell(obj, phase, mem, n - 1, i);
      var before, cell := Pass(obj, phase, mem, n - 1), obj.Cell(n - 1);
      assert Mapped(mem, cell);
      var w := After(obj, phase, n - 1, ReadWord(before, cell));
      if i == n - 1 {
        ReadBack(before, cell, w);
      } else {
        assert Apart4(cell, obj.Cell(i));
        ReadElsewhere(before, cell, w, obj.Cell(i));
      }
    }
  }

  /** A pass leaves every byte alone that belongs to no cell. */
  lemma {:induction false} PassOutside(obj: Object, phase: Phase, mem: Memory, n: nat, b: int)
    requires n <= obj.Count() && obj.SymbolsExist() && obj.CellsMapped(mem) && obj.Outside(b, n)
    requires phase.Resolving? ==> phase.imports.Searchable()
    ensures b in mem ==> Pass(obj, phase, mem, n)[b] == mem[b]
  {
    hide After, WriteWord, ReadWord, Wrap;
    if n > 0 {
      PassOutside(obj, phase, mem, n - 1, b);
      var before, cell := Pass(obj, phase, mem, n - 1), obj.Cell(n - 1);
      assert Mapped(mem, cell);
      WriteByte(before, cell, After(obj, phase, n - 1, ReadWord(before, cell)), b);
    }
  }

  /** Defined symbols are dealt with in the first pass, undefined ones in the second, each addend once. */
  lemma AfterBoth(obj: Object, imports: Imports, i: nat, cell: Word)
    requires i < obj.Count() && obj.SymbolsExist() && imports.Searchable()
    ensures After(obj, Resolving(imports), i, After(obj, Relocating, i, cell)) == Wanted(obj, imports, i, cell)
  {
    hide TableValue, Link, Wrap;
    var sym := obj.Sym(i);
    WrapAdd(obj.base + sym.value, cell);
    assert cell + obj.base + sym.value == obj.base + sym.value + cell;
  }

  /** No byte comes or goes. */
  lemma StillMapped(obj: Object, mem: Memory, m1: Memory, i: nat)
    requires obj.CellsMapped(mem) && m1.Keys == mem.Keys && i < obj.Count()
    ensures obj.CellsMapped(m1) && Mapped(m1, obj.Cell(i))
  {
    assert Mapped(mem, obj.Cell(i));
  }

  /** The image after relocating and resolving, for cells that share no byte: each cell as wanted. */
  lemma LinkedCell(obj: Object, imports: Imports, mem: Memory, i: nat)
    requires obj.SymbolsExist() && obj.CellsMapped(mem) && obj.CellsApart() && imports.Searchable() && i < obj.Count()
    ensures var m1 := Pass(obj, Relocating, mem, obj.Count());
            && obj.CellsMapped(m1)
            && var m2 := Pass(obj, Resolving(imports), m1, obj.Count());
               && Mapped(mem, obj.Cell(i)) && Mapped(m2, obj.Cell(i))
               && ReadWord(m2, obj.Cell(i)) == Wanted(obj, imports, i, ReadWord(mem, obj.Cell(i)))
  {
    hide *;
    var m1 := Pass(obj, Relocating, mem, obj.Count());
    StillMapped(obj, mem, mem, i);
    PassCell(obj, Relocating, mem, obj.Count(), i);
    StillMapped(obj, mem, m1, i);
    PassCell(obj, Resolving(imports), m1, obj.Count(), i);
    AfterBoth(obj, imports, i, ReadWord(mem, obj.Cell(i)));
  }

  /** Cells two bytes apart: the second relocation writes into the first cell, whose word is then not the one wanted. */
  lemma OverlapSpoils(obj: Object, imports: Imports)
    requires obj == Object(0x1000, [Symbol([], 0, 0, 1, 0)], [Rel(0, R_ARM_RELATIVE, 0), Rel(2, R_ARM_RELATIVE, 0)], [])
    requires imports.Searchable()
    ensures var mem: Memory := map[0x1000 := 0, 0x1001 := 0, 0x1002 := 0, 0x1003 := 0, 0x1004 := 0, 0x1005 := 0];
            && obj.SymbolsExist() && obj.CellsMapped(mem) && obj.Cell(0) == 0x1000
            && ReadWord(Pass(obj, Relocating, mem, 2), 0x1000) == 0x1000_1000
            && Wanted(obj, imports, 0, ReadWord(mem, 0x1000)) == 0x1000
  {
    var mem: Memory := map[0x1000 := 0, 0x1001 := 0, 0x1002 := 0, 0x1003 := 0, 0x1004 := 0, 0x1005 := 0];
    assert obj.Cell(0) == 0x1000 && obj.Cell(1) == 0x1002;
    assert PutWord(0x1000) == [0, 0x10, 0, 0];
    var m1 := WriteWord(mem, 0x1000, 0x1000);
    WriteKeys(mem, 0x1000, 0x1000);
    var m2 := WriteWord(m1, 0x1002, 0x1000);
    WriteKeys(m1, 0x1002, 0x1000);
    OverlapBytes(mem, m1, m2);
    assert After(obj, Relocating, 0, 0) == 0x1000 == After(obj, Relocating, 1, 0);
    hide WriteWord, After;
    assert Pass(obj, Relocating, mem, 0) == mem;
    assert Pass(obj, Relocating, mem, 1) == m1;
    assert Pass(obj, Relocating, mem, 2) == m2;
  }

  lemma OverlapBytes(mem: Memory, m1: Memory, m2: Memory)
    requires forall a :: a in mem <==> 0x1000 <= a < 0x1006
    requires forall a :: a in mem ==> mem[a] == 0
    requires m1 == WriteWord(mem, 0x1000, 0x1000) && m2 == WriteWord(m1, 0x1002, 0x1000)
    requires m1.Keys == mem.Keys == m2.Keys
    ensures ReadWord(m1, 0x1002) == 0 && ReadWord(m2, 0x1000) == 0x1000_1000
  {
    assert PutWord(0x1000) == [0, 0x10, 0, 0];
    hide WriteWord, PutWord;
    forall a | a in mem
      ensures m1[a] == if a == 0x1001 then 0x10 else 0
      ensures m2[a] == if a == 0x1001 || a == 0x1003 then 0x10 else 0
    {
      WriteByte(mem, 0x1000, 0x1000, a);
      WriteByte(m1, 0x1002, 0x1000, a);
    }
  }

  /** All other bytes as before. */
  lemma LinkedOutside(obj: Object, imports: Imports, mem: Memory, b: int)
    requires obj.SymbolsExist() && obj.CellsMapped(mem) && imports.Searchable() && b in mem
    requires obj.Outside(b, obj.Count())
    ensures var m1 := Pass(obj, Relocating, mem, obj.Count());
            && obj.CellsMapped(m1)
            && Pass(obj, Resolving(imports), m1, obj.Count())[b] == mem[b]
  {
    hide After, ReadWord;
    var m1 := Pass(obj, Relocating, mem, obj.Count());
    assert obj.CellsMapped(m1);
    PassOutside(obj, Relocating, mem, obj.Count(), b);
    PassOutside(obj, Resolving(imports), m1, obj.Count(), b);
  }

  /** One more relocation looked at. */
  lemma UnresolvedStep(obj: Object, imports: Imports, n: nat)
    requires n < obj.Count() && obj.SymbolsExist() && imports.Searchable()
    ensures |Unresolved(obj, imports, n + 1)| == |Unresolved(obj, imports, n)|
          + if Symbolic(obj.At(n).kind) && SymbolValue(obj, imports, n).None? then 1 else 0
  {
    hide SymbolValue, Symbolic;
    if Symbolic(obj.At(n).kind) && SymbolValue(obj, imports, n).None? {
      assert Unresolved(obj, imports, n + 1) == Unresolved(obj, imports, n) + {n};
    } else {
      assert Unresolved(obj, imports, n + 1) == Unresolved(obj, imports, n);
    }
  }

  method LookUp(table: seq<(Name, Word)>, name: Name) returns (r: Option<Word>)
    ensures r == TableValue(table, name, 0)
  {
    var j := 0;
    while j < |table|
      invariant 0 <= j <= |table|
      invariant TableValue(table, name, j) == TableValue(table, name, 0)
    {
      if table[j].0 == name {
        return Some(table[j].1);
      }
      j := j + 1;
    }
    assert j == |table|;
    r := None;
  }

  /** What is wanted for an import: table, link, weak, nothing. */
  lemma WantedImport(obj: Object, imports: Imports, i: nat, cell: Word, link: Word, entry: Option<Word>)
    requires i < obj.Count() && obj.SymbolsExist() && imports.Searchable()
    requires obj.Sym(i).shndx == SHN_UNDEF && Symbolic(obj.At(i).kind)
    requires entry == TableValue(imports.table, obj.Sym(i).name, 0)
    requires link == if imports.tableOnly then 0
                     else Link(imports.mods, imports.self, imports.needed, obj.Sym(i).name, 0)
    ensures var addend := if obj.At(i).kind == R_ARM_ABS32 then cell else 0;
            var wanted := Wanted(obj, imports, i, cell);
            if entry.Some? then wanted == Wrap(addend + entry.value)
            else if link != 0 then wanted == if obj.At(i).kind == R_ARM_ABS32 then Wrap(addend + link) else link
            else if Weak(obj.Sym(i)) then wanted == addend
            else wanted == cell
    ensures SymbolValue(obj, imports, i).None? <==> entry.None? && link == 0 && !Weak(obj.Sym(i))
  {
    hide TableValue, Link, Weak;
  }

  /** What so_relocate makes of one cell, kind by kind. */
  lemma RelocatingIs(obj: Object, i: nat, cell: Word)
    requires i < obj.Count() && obj.SymbolsExist()
    ensures var rel := obj.At(i);
            && rel.sym < |obj.syms| && obj.Cell(i) == Wrap(obj.base + rel.offset)
            && var sym := obj.syms[rel.sym];
               After(obj, Relocating, i, cell) ==
               (if rel.kind == R_ARM_ABS32 then
                  if sym.shndx == SHN_UNDEF then cell else Wrap(cell + obj.base + sym.value)
                else if rel.kind == R_ARM_RELATIVE then Wrap(cell + obj.base)
                else if rel.kind == R_ARM_GLOB_DAT || rel.kind == R_ARM_JUMP_SLOT then
                  if sym.shndx == SHN_UNDEF then cell else Wrap(obj.base + sym.value)
                else cell)
  {
  }

  lemma KnownKinds(obj: Object)
    ensures forall i :: 0 <= i < obj.Count() ==> (Known(obj.At(i).kind) <==> obj.At(i).kind in [2, 21, 22, 23])
  {
  }

  lemma {:induction false} TableFirst(table: seq<(Name, Word)>, name: Name, j: nat)
    requires j <= |table|
    ensures TableValue(table, name, j).None? <==> forall k :: j <= k < |table| ==> table[k].0 != name
    ensures TableValue(table, name, j).Some? ==>
              exists k :: j <= k < |table| && table[k].0 == name && TableValue(table, name, j) == Some(table[k].1)
                          && forall l :: j <= l < k ==> table[l].0 != name
    decreases |table| - j
  {
    if j < |table| && table[j].0 != name {
      TableFirst(table, name, j + 1);
    }
  }

  /**
   Section 4.6.1 of IHI 0044 by the numbers of the kinds: R_ARM_RELATIVE 23 is B + A, R_ARM_ABS32 2
   is S + A, R_ARM_GLOB_DAT 21 and R_ARM_JUMP_SLOT 22 are S, with S of a symbol of the object itself.
   */
  lemma WantedDefined(obj: Object, imports: Imports, i: nat, addend: Word)
    requires i < obj.Count() && obj.SymbolsExist() && imports.Searchable()
    ensures var kind, sym, wanted := obj.At(i).kind, obj.Sym(i), Wanted(obj, imports, i, addend);
            && (kind == 23 ==> wanted == (obj.base + addend) % 0x1_0000_0000)
            && (kind == 2 && sym.shndx != 0 ==> wanted == (obj.base + sym.value + addend) % 0x1_0000_0000)
            && ((kind == 21 || kind == 22) && sym.shndx != 0 ==> wanted == (obj.base + sym.value) % 0x1_0000_0000)
            && (kind != 2 && kind != 21 && kind != 22 && kind != 23 ==> wanted == addend)
  {
    hide TableValue, Link;
    WrapAdd(obj.base + obj.Sym(i).value, addend);
  }

  /**
   The same for an import whose symbol has binding `bind` in the upper half of its info byte:
   S is the first entry of the table with its name; without one the link; without both it is
   0 for a weak symbol, whose binding is 2. In every other case, and only then, the import is
   counted and its cell is left alone.
   */
  lemma WantedImported(obj: Object, imports: Imports, i: nat, addend: Word, bind: nat, kindBits: nat)
    requires i < obj.Count() && obj.SymbolsExist() && imports.Searchable()
    requires bind < 16 && kindBits < 16 && obj.Sym(i).info == bind * 16 + kindBits
    requires obj.Sym(i).shndx == 0 && (obj.At(i).kind == 2 || obj.At(i).kind == 21 || obj.At(i).kind == 22)
    ensures var a := if obj.At(i).kind == 2 then addend else 0;
            var name, wanted := obj.Sym(i).name, Wanted(obj, imports, i, addend);
            var link := if imports.tableOnly then 0 else Link(imports.mods, imports.self, imports.needed, name, 0);
            var listed := exists j :: 0 <= j < |imports.table| && imports.table[j].0 == name;
            && (listed ==> exists j :: 0 <= j < |imports.table| && imports.table[j].0 == name
                             && wanted == (imports.table[j].1 + a) % 0x1_0000_0000
                             && forall l :: 0 <= l < j ==> imports.table[l].0 != name)
            && (!listed && link != 0 ==> wanted == (link + a) % 0x1_0000_0000)
            && (!listed && link == 0 && bind == 2 ==> wanted == a)
            && (!listed && link == 0 && bind != 2 ==> wanted == addend)
            && (i in Unresolved(obj, imports, obj.Count()) <==> !listed && link == 0 && bind != 2)
  {
    var name := obj.Sym(i).name;
    var entry := TableValue(imports.table, name, 0);
    var link := if imports.tableOnly then 0 else Link(imports.mods, imports.self, imports.needed, name, 0);
    TableFirst(imports.table, name, 0);
    WeakIs(obj.Sym(i), bind, kindBits);
    WantedImport(obj, imports, i, addend, link, entry);
    assert i in Unresolved(obj, imports, obj.Count()) <==> SymbolValue(obj, imports, i).None?;
    hide TableValue, Link, Weak, SymbolValue, Wanted;
    WrapSmall(link);
    if entry.Some? {
      WrapSmall(entry.value);
    }
  }

  lemma WeakIs(sym: Symbol, bind: nat, kindBits: nat)
    requires bind < 16 && kindBits < 16 && sym.info == bind * 16 + kindBits
    ensures Weak(sym) <==> bind == 2
  {
    assert sym.info / 16 == bind;
  }

  lemma WrapSmall(w: Word)
    ensures Wrap(w) == w
  {
  }

  class Image {
    const obj: Object
    var mem: Memory

    constructor (obj: Object, mem: Memory)
      ensures this.obj == obj && this.mem == mem
    {
      this.obj, this.mem := obj, mem;
    }

    /** so_relocate; an unknown kind ends the process at that relocation. */
    method Relocate() returns (ok: bool, n: nat)
      requires obj.SymbolsExist() && obj.CellsMapped(mem)
      modifies this`mem
      ensures n <= obj.Count() && mem == Pass(obj, Relocating, old(mem), n)
      ensures ok <==> forall i :: 0 <= i < obj.Count() ==> obj.At(i).kind in [2, 21, 22, 23]
      ensures ok ==> n == obj.Count()
      ensures !ok ==> n < obj.Count() && obj.At(n).kind !in [2, 21, 22, 23]
                      && forall i :: 0 <= i < n ==> obj.At(i).kind in [2, 21, 22, 23]
    {
      KnownKinds(obj);
      hide *;
      ok, n := RelocateKnown();
    }

    method RelocateKnown() returns (ok: bool, n: nat)
      requires obj.SymbolsExist() && obj.CellsMapped(mem)
      modifies this`mem
      ensures n <= obj.Count() && mem == Pass(obj, Relocating, old(mem), n)
      ensures ok <==> forall i :: 0 <= i < obj.Count() ==> Known(obj.At(i).kind)
      ensures ok ==> n == obj.Count()
      ensures !ok ==> n < obj.Count() && !Known(obj.At(n).kind) && forall i :: 0 <= i < n ==> Known(obj.At(i).kind)
    {
      n := 0;
      hide *;
      PassStart(obj, Relocating, mem);
      while n < obj.Count()
        invariant n <= obj.Count() && mem == Pass(obj, Relocating, old(mem), n)
        invariant forall i :: 0 <= i < n ==> Known(obj.At(i).kind)
      {
        if !Known(obj.At(n).kind) {
          return false, n;
        }
        PassNext(obj, Relocating, old(mem), n);
        RelocateOne(n);
        n := n + 1;
      }
      ok := true;
    }

    method RelocateOne(i: nat)
      requires i < obj.Count() && obj.SymbolsExist() && Mapped(mem, obj.Cell(i))
      modifies this`mem
      ensures mem == WriteWord(old(mem), obj.Cell(i), After(obj, Relocating, i, ReadWord(old(mem), obj.Cell(i))))
    {
      hide *;
      RelocatingIs(obj, i, ReadWord(mem, obj.Cell(i)));
      WriteSame(mem, obj.Cell(i));
      var rel := obj.At(i);
      var sym := obj.syms[rel.sym];
      var ptr := Wrap(obj.base + rel.offset);
      var cell := ReadWord(mem, ptr);
      var val;
      if rel.kind == R_ARM_ABS32 {
        if sym.shndx != SHN_UNDEF {
          val := Wrap(cell + obj.base + sym.value);
          mem := WriteWord(mem, ptr, val);
        }
      } else if rel.kind == R_ARM_RELATIVE {
        val := Wrap(cell + obj.base);
        mem := WriteWord(mem, ptr, val);
      } else if rel.kind == R_ARM_GLOB_DAT || rel.kind == R_ARM_JUMP_SLOT {
        if sym.shndx != SHN_UNDEF {
          val := Wrap(obj.base + sym.value);
          mem := WriteWord(mem, ptr, val);
        }
      }
    }

    /** so_resolve: the number of imports nobody provides. */
    method Resolve(imports: Imports) returns (missing: nat)
      requires obj.SymbolsExist() && obj.CellsMapped(mem) && imports.Searchable()
      modifies this`mem
      ensures mem == Pass(obj, Resolving(imports), old(mem), obj.Count())
      ensures missing == |Unresolved(obj, imports, obj.Count())|
    {
      var i := 0;
      missing := 0;
      assert Unresolved(obj, imports, 0) == {};
      hide *;
      PassStart(obj, Resolving(imports), mem);
      while i < obj.Count()
        invariant i <= obj.Count() && mem == Pass(obj, Resolving(imports), old(mem), i)
        invariant missing == |Unresolved(obj, imports, i)|
      {
        missing := ResolveNext(imports, i, missing, old(mem));
        i := i + 1;
      }
    }

    /** One round of the loop; an import nobody provides is counted. */
    method ResolveNext(imports: Imports, i: nat, missing: nat, ghost mem0: Memory) returns (missing': nat)
      requires i < obj.Count() && obj.SymbolsExist() && obj.CellsMapped(mem0) && imports.Searchable()
      requires mem == Pass(obj, Resolving(imports), mem0, i) && missing == |Unresolved(obj, imports, i)|
      modifies this`mem
      ensures mem == Pass(obj, Resolving(imports), mem0, i + 1) && missing' == |Unresolved(obj, imports, i + 1)|
    {
      hide *;
      PassNext(obj, Resolving(imports), mem0, i);
      var unresolved := ResolveOne(imports, i);
      UnresolvedStep(obj, imports, i);
      missing' := if unresolved then missing + 1 else missing;
    }

    method ResolveOne(imports: Imports, i: nat) returns (unresolved: bool)
      requires i < obj.Count() && obj.SymbolsExist() && Mapped(mem, obj.Cell(i)) && imports.Searchable()
      modifies this`mem
      ensures mem
           == WriteWord(old(mem), obj.Cell(i), After(obj, Resolving(imports), i, ReadWord(old(mem), obj.Cell(i))))
      ensures unresolved <==> Symbolic(obj.At(i).kind) && SymbolValue(obj, imports, i).None?
    {
      var rel := obj.At(i);
      var sym := obj.syms[rel.sym];
      unresolved := false;
      if Symbolic(rel.kind) && sym.shndx == SHN_UNDEF {
        unresolved := ResolveImport(imports, i);
      } else {
        WriteSame(mem, obj.Cell(i));
      }
    }

    /** An import: the link first, the table over it, then the weak addend. */
    method ResolveImport(imports: Imports, i: nat) returns (unresolved: bool)
      requires i < obj.Count() && obj.SymbolsExist() && Mapped(mem, obj.Cell(i)) && imports.Searchable()
      requires obj.Sym(i).shndx == SHN_UNDEF && Symbolic(obj.At(i).kind)
      modifies this`mem
      ensures mem == WriteWord(old(mem), obj.Cell(i), Wanted(obj, imports, i, ReadWord(old(mem), obj.Cell(i))))
      ensures unresolved <==> SymbolValue(obj, imports, i).None?
    {
      hide Wanted, SymbolValue, TableValue, Link, Weak, WriteWord, ReadWord, Wrap;
      var rel := obj.At(i);
      var sym := obj.syms[rel.sym];
      var ptr := Wrap(obj.base + rel.offset);
      var addend: Word := if rel.kind == R_ARM_ABS32 then ReadWord(mem, ptr) else 0;
      ghost var cell := ReadWord(mem, ptr);
      WriteSame(mem, ptr);
      var link: Word := 0;
      if !imports.tableOnly {
        link := ResolveLink(imports.mods, imports.self, imports.needed, sym.name);
        if link != 0 {
          var val := if rel.kind == R_ARM_ABS32 then Wrap(addend + link) else link;
          mem := WriteWord(mem, ptr, val);
        }
      }
      var entry := LookUp(imports.table, sym.name);
      WantedImport(obj, imports, i, cell, link, entry);
      if entry.Some? {
        if link != 0 {
          WriteTwice(old(mem), ptr, if rel.kind == R_ARM_ABS32 then Wrap(addend + link) else link,
                     Wrap(addend + entry.value));
        }
        mem := WriteWord(mem, ptr, Wrap(addend + entry.value));
      } else if link == 0 && Weak(sym) {
        mem := WriteWord(mem, ptr, addend);
      }
      unresolved := entry.None? && link == 0 && !Weak(sym);
    }
  }
}
