/**
 The ELF symbol hash: the 64-bit computation of so_hash against the 32-bit hash of the
 System V gABI (chapter 5, "Hash Table").
 */
module SoHash {

  // ----- one character in 64 bits: g is always masked from the low word

  function Wide(h: bv64, c: bv8): bv64 {
    (h << 4) + (c as bv64)
  }

  function TopWide(t: bv64): bv64 {
    t & 0xF000_0000
  }

  function MixWide(t: bv64): bv64 {
    t ^ (TopWide(t) >> 24)
  }

  function LowWide(t: bv64): bv64 {
    t & 0x0FFF_FFFF
  }

  function WideStep(h: bv64, c: bv8): bv64 {
    var t := Wide(h, c);
    LowWide(if TopWide(t) != 0 then MixWide(t) else t)
  }

  // ----- one character in 32 bits, as in the standard

  function Narrow(h: bv32, c: bv8): bv32 {
    (h << 4) + (c as bv32)
  }

  function Top(t: bv32): bv32 {
    t & 0xF000_0000
  }

  function Mix(t: bv32): bv32 {
    t ^ (Top(t) >> 24)
  }

  function Low(t: bv32): bv32 {
    t & 0x0FFF_FFFF
  }

  function Clear(t: bv32, g: bv32): bv32 {
    t & !g
  }

  function GabiStep(h: bv32, c: bv8): bv32 {
    var t := Narrow(h, c);
    var g := Top(t);
    Clear(if g != 0 then Mix(t) else t, g)
  }

  function GabiHash(name: seq<bv8>): bv32 {
    if name == [] then 0 else GabiStep(GabiHash(name[..|name| - 1]), name[|name| - 1])
  }

  // ----- bit by bit

  lemma ClearTop(x: bv32)
    ensures Clear(x, Top(x)) == Low(x)
  {
  }

  lemma TopKept(t: bv32)
    ensures Top(Mix(t)) == Top(t)
  {
  }

  lemma MixNothing(t: bv32)
    ensures Top(t) == 0 ==> Mix(t) == t
  {
  }

  lemma MixNothingWide(t: bv64)
    ensures TopWide(t) == 0 ==> MixWide(t) == t
  {
  }

  lemma FoldAgrees(w: bv64, t: bv32)
    requires w & 0xFFFF_FFFF == t as bv64
    ensures (w ^ ((w & 0xF000_0000) >> 24)) & 0x0FFF_FFFF == ((t ^ ((t & 0xF000_0000) >> 24)) & 0x0FFF_FFFF) as bv64
  {
  }

  lemma Unfolded(w: bv64, t: bv32)
    ensures LowWide(MixWide(w)) == (w ^ ((w & 0xF000_0000) >> 24)) & 0x0FFF_FFFF
    ensures Low(Mix(t)) == (t ^ ((t & 0xF000_0000) >> 24)) & 0x0FFF_FFFF
  {
  }

  lemma MixLow(w: bv64, t: bv32)
    requires w & 0xFFFF_FFFF == t as bv64
    ensures LowWide(MixWide(w)) == Low(Mix(t)) as bv64
  {
    hide LowWide, MixWide, TopWide, Low, Mix, Top;
    Unfolded(w, t);
    FoldAgrees(w, t);
  }

  lemma ShiftFits(h: bv32)
    requires h < 0x1000_0000
    ensures (h as bv64) << 4 == (h << 4) as bv64
  {
  }

  /** The carry out of 32 bits is the only difference. */
  lemma AddLow(x: bv32, c: bv8)
    ensures ((x as bv64) + (c as bv64)) & 0xFFFF_FFFF == (x + (c as bv32)) as bv64
  {
  }

  lemma WideLow(h: bv32, c: bv8)
    requires h < 0x1000_0000
    ensures Wide(h as bv64, c) & 0xFFFF_FFFF == Narrow(h, c) as bv64
  {
    ShiftFits(h);
    AddLow(h << 4, c);
  }

  lemma LowBound(x: bv32)
    ensures Low(x) < 0x1000_0000
  {
  }

  /** Where nothing is folded in, folding in nothing is the same. */
  lemma WideStepMixes(h: bv64, c: bv8)
    ensures WideStep(h, c) == LowWide(MixWide(Wide(h, c)))
  {
    hide Wide, TopWide, MixWide, LowWide;
    MixNothingWide(Wide(h, c));
  }

  lemma GabiStepMixes(h: bv32, c: bv8)
    ensures GabiStep(h, c) == Low(Mix(Narrow(h, c)))
  {
    hide Narrow, Top, Mix, Low, Clear;
    var t := Narrow(h, c);
    MixNothing(t);
    TopKept(t);
    ClearTop(Mix(t));
  }

  /** A carry out of 32 bits is lost in one form and masked away in the other. */
  lemma StepAgrees(h: bv32, c: bv8)
    requires h < 0x1000_0000
    ensures WideStep(h as bv64, c) == GabiStep(h, c) as bv64 && GabiStep(h, c) < 0x1000_0000
  {
    hide Wide, TopWide, MixWide, LowWide, Narrow, Top, Mix, Low, Clear, WideStep, GabiStep;
    WideStepMixes(h as bv64, c);
    GabiStepMixes(h, c);
    WideLow(h, c);
    MixLow(Wide(h as bv64, c), Narrow(h, c));
    LowBound(Mix(Narrow(h, c)));
  }

  function Widen(x: bv32): bv64 {
    x as bv64
  }

  lemma StepWidened(h: bv32, c: bv8)
    requires h < 0x1000_0000
    ensures WideStep(Widen(h), c) == Widen(GabiStep(h, c)) && GabiStep(h, c) < 0x1000_0000
  {
    StepAgrees(h, c);
    hide WideStep, GabiStep;
  }

  lemma LowWord(x: bv32)
    ensures (Widen(x) & 0xFFFF_FFFF) as bv32 == x
  {
  }

  /** so_hash: the gABI hash of every name, below 2^28. */
  method Hash(name: seq<bv8>) returns (hash: bv32)
    ensures hash == GabiHash(name) && hash < 0x1000_0000
  {
    var h: bv64 := 0;
    var i := 0;
    ghost var narrow: bv32 := 0;
    assert name[..0] == [];
    hide WideStep, GabiStep;
    while i < |name|
      invariant 0 <= i <= |name|
      invariant narrow == GabiHash(name[..i]) && narrow < 0x1000_0000 && h == Widen(narrow)
    {
      hide Widen;
      StepWidened(narrow, name[i]);
      assert name[..i + 1][..i] == name[..i];
      h := WideStep(h, name[i]);
      narrow := GabiStep(narrow, name[i]);
      i := i + 1;
    }
    assert name[..i] == name;
    LowWord(narrow);
    hide Widen;
    hash := (h & 0xFFFF_FFFF) as bv32;
  }

  lemma GabiAppend(name: seq<bv8>, c: bv8)
    ensures GabiHash(name + [c]) == GabiStep(GabiHash(name), c)
  {
    hide GabiStep;
    assert (name + [c])[..|name|] == name;
  }

  /** The hash of "printf" as linkers know it. */
  lemma KnownHash()
    ensures GabiHash([0x70, 0x72, 0x69, 0x6E, 0x74, 0x66]) == 0x077905A6
  {
    var p: seq<bv8>, pr: seq<bv8>, pri: seq<bv8> := [0x70], [0x70, 0x72], [0x70, 0x72, 0x69];
    var prin: seq<bv8>, head: seq<bv8> := [0x70, 0x72, 0x69, 0x6E], [0x70, 0x72, 0x69, 0x6E, 0x74];
    assert p == [] + [0x70] && pr == p + [0x72] && pri == pr + [0x69] && prin == pri + [0x6E] && head == prin + [0x74];
    assert [0x70, 0x72, 0x69, 0x6E, 0x74, 0x66] == head + [0x66 as bv8];
    assert GabiHash([]) == 0;
    NextHash([], 0, 0x70, 0x70);
    NextHash(p, 0x70, 0x72, 0x772);
    NextHash(pr, 0x772, 0x69, 0x7789);
    NextHash(pri, 0x7789, 0x6E, 0x7_78FE);
    NextHash(prin, 0x7_78FE, 0x74, 0x77_9054);
    NextHash(head, 0x77_9054, 0x66, 0x0779_05A6);
  }

  lemma NextHash(name: seq<bv8>, h: bv32, c: bv8, h': bv32)
    requires GabiHash(name) == h && h' == GabiStep(h, c)
    ensures GabiHash(name + [c]) == h'
  {
    GabiAppend(name, c);
  }
}
