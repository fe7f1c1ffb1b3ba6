/** The Secure Hash Algorithm SHA-1 as FIPS 180-4 defines it, on byte sequences. */
module Sha1Spec {

  type Block = s: seq<bv8> | |s| == 64 witness seq(64, _ => 0)

  /** The working variables a to e, or the hash value H0 to H4. */
  datatype Words = Words(a: bv32, b: bv32, c: bv32, d: bv32, e: bv32)

  /** Left rotations: section 3.2. */
  function Rotl1(x: bv32): bv32 { (x << 1) | (x >> 31) }

  function Rotl5(x: bv32): bv32 { (x << 5) | (x >> 27) }

  function Rotl30(x: bv32): bv32 { (x << 30) | (x >> 2) }

  /** Section 4.1.1. */
  function Choose(x: bv32, y: bv32, z: bv32): bv32 { (x & y) ^ (!x & z) }

  function Parity(x: bv32, y: bv32, z: bv32): bv32 { x ^ y ^ z }

  function Majority(x: bv32, y: bv32, z: bv32): bv32 { (x & y) ^ (x & z) ^ (y & z) }

  function Mix(t: nat, x: bv32, y: bv32, z: bv32): bv32 {
    if t < 20 then Choose(x, y, z) else if 40 <= t < 60 then Majority(x, y, z) else Parity(x, y, z)
  }

  /** Section 4.2.1. */
  function RoundConstant(t: nat): bv32 {
    if t < 20 then 0x5A827999 else if t < 40 then 0x6ED9EBA1 else if t < 60 then 0x8F1BBCDC else 0xCA62C1D6
  }

  /** Rotations are those of the language: section 3.2, operation 5. */
  lemma RotationLaw(x: bv32)
    ensures Rotl1(x) == x.RotateLeft(1) && Rotl5(x) == x.RotateLeft(5) && Rotl30(x) == x.RotateLeft(30)
  {
  }

  /**
   Rotating by n multiplies by 2^n modulo 2^32 - 1: in 64 bits, 2^n * x is a high word, which
   counts 2^32, and a low word, and the rotation is their sum.
   */
  lemma RotationMultiplies(x: bv32)
    ensures ((x as bv64) << 1) == ((((x >> 31) as bv64) << 32) | ((x << 1) as bv64))
    ensures Rotl1(x) == (x << 1) + (x >> 31)
    ensures ((x as bv64) << 5) == ((((x >> 27) as bv64) << 32) | ((x << 5) as bv64))
    ensures Rotl5(x) == (x << 5) + (x >> 27)
    ensures ((x as bv64) << 30) == ((((x >> 2) as bv64) << 32) | ((x << 30) as bv64))
    ensures Rotl30(x) == (x << 30) + (x >> 2)
  {
  }

  /** Bit by bit: y where x is 1 and z where it is 0. */
  lemma ChooseLaw(x: bv32, y: bv32, z: bv32)
    ensures Choose(x, y, z) & x == y & x
    ensures Choose(x, y, z) & !x == z & !x
  {
  }

  /** Where x and y agree it is what they say, and elsewhere z decides. */
  lemma MajorityLaw(x: bv32, y: bv32, z: bv32)
    ensures Majority(x, y, z) & !(x ^ y) == x & !(x ^ y)
    ensures Majority(x, y, z) & (x ^ y) == z & (x ^ y)
  {
  }

  /** The round constants are the whole parts of 2^30 times the square roots of 2, 3, 5 and 10. */
  lemma ConstantLaw(t: nat)
    ensures var n := if t < 20 then 2 else if t < 40 then 3 else if t < 60 then 5 else 10;
            var k := RoundConstant(t) as nat;
            k * k <= n * 0x1000_0000_0000_0000 < (k + 1) * (k + 1)
  {
  }

  /** A big-endian word. */
  function Word(b0: bv8, b1: bv8, b2: bv8, b3: bv8): bv32 {
    (b0 as bv32 << 24) | (b1 as bv32 << 16) | (b2 as bv32 << 8) | b3 as bv32
  }

  function Stretch(w3: bv32, w8: bv32, w14: bv32, w16: bv32): bv32 {
    Rotl1(w3 ^ w8 ^ w14 ^ w16)
  }

  /** The message schedule: section 6.1.2, step 1. */
  function Schedule(block: Block, t: nat): bv32 {
    if t < 16 then Word(block[4 * t], block[4 * t + 1], block[4 * t + 2], block[4 * t + 3])
    else Stretch(Schedule(block, t - 3), Schedule(block, t - 8), Schedule(block, t - 14), Schedule(block, t - 16))
  }

  /** Section 6.1.2, step 3. */
  function Round(t: nat, v: Words, w: bv32): Words {
    Shift(v, Mix(t, v.b, v.c, v.d), RoundConstant(t), w)
  }

  function Shift(v: Words, f: bv32, k: bv32, w: bv32): Words {
    Words(Sum(Rotl5(v.a), f, v.e, k, w), v.a, Rotl30(v.b), v.c, v.d)
  }

  /** Addition modulo 2^32. */
  function Sum(a: bv32, b: bv32, c: bv32, d: bv32, e: bv32): bv32 {
    a + b + c + d + e
  }

  function Rounds(block: Block, h: Words, t: nat): Words {
    if t == 0 then h else Round(t - 1, Rounds(block, h, t - 1), Schedule(block, t - 1))
  }

  function Add(a: bv32, b: bv32): bv32 {
    a + b
  }

  function Plus(h: Words, v: Words): Words {
    Words(Add(h.a, v.a), Add(h.b, v.b), Add(h.c, v.c), Add(h.d, v.d), Add(h.e, v.e))
  }

  function Compress(h: Words, block: Block): Words {
    Plus(h, Rounds(block, h, 80))
  }

  /** Section 5.3.1. */
  const INITIAL := Words(0x67452301, 0xEFCDAB89, 0x98BADCFE, 0x10325476, 0xC3D2E1F0)

  /** The hash value after the blocks of `m`. */
  function Fold(m: seq<bv8>): Words
    requires |m| % 64 == 0
  {
    if m == [] then INITIAL else Compress(Fold(m[..|m| - 64]), m[|m| - 64..])
  }

  function Zeros(n: nat): (s: seq<bv8>)
    ensures |s| == n
  {
    seq(n, _ => 0)
  }

  function LowByte(n: nat): bv8 {
    (n % 256) as bv8
  }

  /** The low `k` bytes of a number, most significant first. */
  function BigEndian(n: nat, k: nat): (s: seq<bv8>)
    ensures |s| == k
  {
    if k == 0 then [] else BigEndian(n / 256, k - 1) + [LowByte(n)]
  }

  /** The four bytes of a word make up the word. */
  lemma WordOfBytes(w: bv32)
    ensures Word(ByteOf(w, 0), ByteOf(w, 1), ByteOf(w, 2), ByteOf(w, 3)) == w
  {
  }

  /** How many zero bytes go between the 0x80 byte and the length: section 5.1.1, in bytes. */
  function ZeroCount(n: nat): (z: nat)
    ensures (n + 1 + z) % 64 == 56 && z < 64 && (n + 1 + z + 8) % 64 == 0
  {
    var q, r := n / 64, n % 64;
    var z := if r < 56 then 55 - r else 119 - r;
    assert n + 1 + z == (if r < 56 then q * 64 else (q + 1) * 64) + 56;
    assert n + 1 + z + 8 == (if r < 56 then (q + 1) * 64 else (q + 2) * 64);
    z
  }

  /** Section 5.1.1: a one bit, zero bits, and the length in bits. */
  function Pad(m: seq<bv8>): (p: seq<bv8>)
    ensures |p| % 64 == 0
  {
    var p := m + [0x80] + Zeros(ZeroCount(|m|)) + BigEndian(8 * |m|, 8);
    assert |p| == |m| + 1 + ZeroCount(|m|) + 8;
    p
  }

  /** The padding is the shortest that leaves room for the length at the end of a block. */
  lemma ZeroCountLeast(n: nat, z: nat)
    requires (n + 1 + z) % 64 == 56
    ensures ZeroCount(n) <= z
  {
  }

  /** Byte `i` of a word, most significant first. */
  function ByteOf(w: bv32, i: nat): bv8
    requires i < 4
  {
    if i == 0 then (w >> 24) as bv8
    else if i == 1 then ((w >> 16) & 0xFF) as bv8
    else if i == 2 then ((w >> 8) & 0xFF) as bv8
    else (w & 0xFF) as bv8
  }

  function WordBytes(w: bv32): (s: seq<bv8>)
    ensures |s| == 4
  {
    [ByteOf(w, 0), ByteOf(w, 1), ByteOf(w, 2), ByteOf(w, 3)]
  }

  function Sha1(m: seq<bv8>): seq<bv8> {
    DigestOf(Fold(Pad(m)))
  }

  function DigestOf(h: Words): seq<bv8> {
    WordBytes(h.a) + WordBytes(h.b) + WordBytes(h.c) + WordBytes(h.d) + WordBytes(h.e)
  }

  lemma FoldBlock(m: seq<bv8>, block: Block)
    requires |m| % 64 == 0
    ensures Fold(m + block) == Compress(Fold(m), block)
  {
    var n := m + block;
    assert n[..|n| - 64] == m && n[|n| - 64..] == block;
  }

  lemma BigEndian8(n: nat)
    ensures BigEndian(n, 8) ==
            [LowByte(n / 0x100_0000_0000_0000), LowByte(n / 0x1_0000_0000_0000), LowByte(n / 0x100_0000_0000),
             LowByte(n / 0x1_0000_0000), LowByte(n / 0x100_0000), LowByte(n / 0x1_0000), LowByte(n / 0x100), LowByte(n)]
  {
    hide LowByte;
    var n1, n2, n3, n4 := n / 0x100, n / 0x1_0000, n / 0x100_0000, n / 0x1_0000_0000;
    var n5, n6, n7 := n / 0x100_0000_0000, n / 0x1_0000_0000_0000, n / 0x100_0000_0000_0000;
    assert n1 / 256 == n2 && n2 / 256 == n3 && n3 / 256 == n4 && n4 / 256 == n5 && n5 / 256 == n6 && n6 / 256 == n7;
    assert BigEndian(n7, 1) == [LowByte(n7)];
    assert BigEndian(n6, 2) == [LowByte(n7), LowByte(n6)];
    assert BigEndian(n5, 3) == [LowByte(n7), LowByte(n6), LowByte(n5)];
    assert BigEndian(n4, 4) == [LowByte(n7), LowByte(n6), LowByte(n5), LowByte(n4)];
    assert BigEndian(n3, 5) == [LowByte(n7), LowByte(n6), LowByte(n5), LowByte(n4), LowByte(n3)];
    assert BigEndian(n2, 6) == [LowByte(n7), LowByte(n6), LowByte(n5), LowByte(n4), LowByte(n3), LowByte(n2)];
    assert BigEndian(n1, 7)
        == [LowByte(n7), LowByte(n6), LowByte(n5), LowByte(n4), LowByte(n3), LowByte(n2), LowByte(n1)];
  }
}
