/** The streaming SHA-1 context: a 64-byte buffer, the hash value so far, and the bit count. */
module Sha1Context {
  import opened Sha1Spec

  const TWO_64 := 0x1_0000_0000_0000_0000

  /** Packing with additions of disjoint bytes is the big-endian word. */
  lemma PackWord(b0: bv8, b1: bv8, b2: bv8, b3: bv8)
    ensures (b0 as bv32 << 24) + (b1 as bv32 << 16) + (b2 as bv32 << 8) + b3 as bv32 == Word(b0, b1, b2, b3)
  {
  }

  /** The message schedule in an array: sixteen words read from the block, the others mixed from earlier ones. */
  method Expand(data: array<bv8>) returns (m: array<bv32>)
    requires data.Length == 64
    ensures fresh(m) && m.Length == 80
    ensures forall t :: 0 <= t < 80 ==> m[t] == Schedule(data[..], t)
  {
    hide Schedule, Word, Stretch;
    m := new bv32[80];
    var i := 0;
    while i < 16
      invariant 0 <= i <= 16
      invariant forall t :: 0 <= t < i ==> m[t] == Schedule(data[..], t)
    {
      m[i] := ReadWord(data, 4 * i);
      ScheduleStart(data[..], i, m[i]);
      i := i + 1;
    }
    while i < 80
      invariant 16 <= i <= 80
      invariant forall t :: 0 <= t < i ==> m[t] == Schedule(data[..], t)
    {
      m[i] := NextWord(m, i);
      ScheduleNext(data[..], i, m[i - 3], m[i - 8], m[i - 14], m[i - 16], m[i]);
      i := i + 1;
    }
  }

  lemma ScheduleStart(block: Block, t: nat, w: bv32)
    requires t < 16 && w == Word(block[4 * t], block[4 * t + 1], block[4 * t + 2], block[4 * t + 3])
    ensures w == Schedule(block, t)
  {
  }

  lemma ScheduleNext(block: Block, t: nat, w3: bv32, w8: bv32, w14: bv32, w16: bv32, w: bv32)
    requires 16 <= t < 80 && w == Stretch(w3, w8, w14, w16)
    requires w3 == Schedule(block, t - 3) && w8 == Schedule(block, t - 8)
    requires w14 == Schedule(block, t - 14) && w16 == Schedule(block, t - 16)
    ensures w == Schedule(block, t)
  {
    hide Stretch;
  }

  method ReadWord(data: array<bv8>, j: nat) returns (w: bv32)
    requires j + 4 <= data.Length
    ensures w == Word(data[j], data[j + 1], data[j + 2], data[j + 3])
  {
    PackWord(data[j], data[j + 1], data[j + 2], data[j + 3]);
    w := (data[j] as bv32 << 24) + (data[j + 1] as bv32 << 16) + (data[j + 2] as bv32 << 8) + data[j + 3] as bv32;
  }

  method NextWord(m: array<bv32>, i: nat) returns (w: bv32)
    requires 16 <= i < m.Length
    ensures w == Stretch(m[i - 3], m[i - 8], m[i - 14], m[i - 16])
  {
    w := m[i - 3] ^ m[i - 8] ^ m[i - 14] ^ m[i - 16];
    w := (w << 1) | (w >> 31);
  }

  method RotateLeft5(x: bv32) returns (r: bv32)
    ensures r == Rotl5(x)
  {
    r := (x << 5) | (x >> 27);
  }

  method RotateLeft30(x: bv32) returns (r: bv32)
    ensures r == Rotl30(x)
  {
    r := (x << 30) | (x >> 2);
  }

  method AddFive(a: bv32, b: bv32, c: bv32, d: bv32, e: bv32) returns (s: bv32)
    ensures s == Sum(a, b, c, d, e)
  {
    s := a + b + c + d + e;
  }

  /** The conversion to an unsigned byte. */
  method ToByte(n: nat) returns (b: bv8)
    ensures b == LowByte(n)
  {
    b := (n % 256) as bv8;
  }

  method AddTwo(a: bv32, b: bv32) returns (s: bv32)
    ensures s == Add(a, b)
  {
    s := a + b;
  }

  method RoundChoose(v: Words, k: bv32, w: bv32) returns (r: Words)
    ensures r == Shift(v, Choose(v.b, v.c, v.d), k, w)
  {
    hide Sum, Rotl5, Rotl30;
    var f := (v.b & v.c) ^ (!v.b & v.d);
    var a5 := RotateLeft5(v.a);
    var t := AddFive(a5, f, v.e, k, w);
    var b30 := RotateLeft30(v.b);
    r := Words(t, v.a, b30, v.c, v.d);
  }

  method RoundParity(v: Words, k: bv32, w: bv32) returns (r: Words)
    ensures r == Shift(v, Parity(v.b, v.c, v.d), k, w)
  {
    hide Sum, Rotl5, Rotl30;
    var f := v.b ^ v.c ^ v.d;
    var a5 := RotateLeft5(v.a);
    var t := AddFive(a5, f, v.e, k, w);
    var b30 := RotateLeft30(v.b);
    r := Words(t, v.a, b30, v.c, v.d);
  }

  method RoundMajority(v: Words, k: bv32, w: bv32) returns (r: Words)
    ensures r == Shift(v, Majority(v.b, v.c, v.d), k, w)
  {
    hide Sum, Rotl5, Rotl30;
    var f := (v.b & v.c) ^ (v.b & v.d) ^ (v.c & v.d);
    var a5 := RotateLeft5(v.a);
    var t := AddFive(a5, f, v.e, k, w);
    var b30 := RotateLeft30(v.b);
    r := Words(t, v.a, b30, v.c, v.d);
  }

  /** Eighty rounds on the working variables, in four loops. */
  method EightyRounds(data: array<bv8>, k: array<bv32>, h: Words) returns (v: Words)
    requires data.Length == 64 && k.Length == 4 && k[..] == CONSTANTS
    ensures v == Rounds(data[..], h, 80)
  {
    var m := Expand(data);
    ghost var block: Block := data[..];
    assert k[0] == 0x5A827999 && k[1] == 0x6ED9EBA1 && k[2] == 0x8F1BBCDC && k[3] == 0xCA62C1D6;
    hide Shift, Schedule, Choose, Parity, Majority;
    v := h;
    var i := 0;
    while i < 20
      invariant 0 <= i <= 20 && v == Rounds(block, h, i)
      invariant forall t :: 0 <= t < 80 ==> m[t] == Schedule(block, t)
    {
      v := RoundChoose(v, k[0], m[i]);
      i := i + 1;
    }
    while i < 40
      invariant 20 <= i <= 40 && v == Rounds(block, h, i)
      invariant forall t :: 0 <= t < 80 ==> m[t] == Schedule(block, t)
    {
      v := RoundParity(v, k[1], m[i]);
      i := i + 1;
    }
    while i < 60
      invariant 40 <= i <= 60 && v == Rounds(block, h, i)
      invariant forall t :: 0 <= t < 80 ==> m[t] == Schedule(block, t)
    {
      v := RoundMajority(v, k[2], m[i]);
      i := i + 1;
    }
    while i < 80
      invariant 60 <= i <= 80 && v == Rounds(block, h, i)
      invariant forall t :: 0 <= t < 80 ==> m[t] == Schedule(block, t)
    {
      v := RoundParity(v, k[3], m[i]);
      i := i + 1;
    }
  }

  const CONSTANTS: seq<bv32> := [0x5A827999, 0x6ED9EBA1, 0x8F1BBCDC, 0xCA62C1D6]

  function WordsOf(s: seq<bv32>): Words
    requires |s| == 5
  {
    Words(s[0], s[1], s[2], s[3], s[4])
  }

  lemma Regroup(a: seq<bv8>, b: seq<bv8>, c: seq<bv8>, d: seq<bv8>, e: seq<bv8>)
    ensures a + b + c + d + e == a + (b + c + d + e)
  {
  }

  lemma ZerosAfter(whole: seq<bv8>, tail: seq<bv8>)
    requires |whole| % 64 == 0 && |tail| < 64
    ensures ZeroCount(|whole + tail|) == if |tail| < 56 then 55 - |tail| else 119 - |tail|
  {
    LastBlock(|whole|, |tail|);
  }

  lemma LastBlock(whole: nat, tail: nat)
    requires whole % 64 == 0 && tail < 64
    ensures (whole + tail) % 64 == tail
  {
  }

  lemma PadShort(whole: seq<bv8>, tail: seq<bv8>)
    requires |whole| % 64 == 0 && |tail| < 56
    ensures Pad(whole + tail) == whole + (tail + [0x80] + Zeros(55 - |tail|) + BigEndian(8 * |whole + tail|, 8))
  {
    ZerosAfter(whole, tail);
    hide Zeros, BigEndian, ZeroCount;
    Regroup(whole, tail, [0x80], Zeros(55 - |tail|), BigEndian(8 * |whole + tail|, 8));
  }

  lemma PadLong(whole: seq<bv8>, tail: seq<bv8>)
    requires |whole| % 64 == 0 && 56 <= |tail| < 64
    ensures Pad(whole + tail)
         == whole + (tail + [0x80] + Zeros(63 - |tail|)) + (Zeros(56) + BigEndian(8 * |whole + tail|, 8))
  {
    ZerosAfter(whole, tail);
    ZerosSplit(63 - |tail|, 56);
    hide Zeros, BigEndian, ZeroCount;
    Regroup2(whole, tail, [0x80], Zeros(63 - |tail|), Zeros(56), BigEndian(8 * |whole + tail|, 8));
  }

  lemma ZerosSplit(a: nat, b: nat)
    ensures Zeros(a + b) == Zeros(a) + Zeros(b)
  {
  }

  lemma Regroup2(a: seq<bv8>, b: seq<bv8>, c: seq<bv8>, d: seq<bv8>, e: seq<bv8>, f: seq<bv8>)
    ensures a + b + c + (d + e) + f == a + (b + c + d) + (e + f)
  {
  }

  lemma PadsShort(whole: seq<bv8>, tail: seq<bv8>, length: seq<bv8>)
    requires |whole| % 64 == 0 && |tail| < 56 && length == BigEndian(8 * |whole + tail|, 8)
    ensures Compress(Fold(whole), tail + [0x80] + Zeros(55 - |tail|) + length) == Fold(Pad(whole + tail))
  {
    hide Compress, Fold, BigEndian, Zeros, Pad;
    PadShort(whole, tail);
    FoldBlock(whole, tail + [0x80] + Zeros(55 - |tail|) + length);
  }

  lemma PadsLong(whole: seq<bv8>, tail: seq<bv8>, length: seq<bv8>)
    requires |whole| % 64 == 0 && 56 <= |tail| < 64 && length == BigEndian(8 * |whole + tail|, 8)
    ensures Compress(Compress(Fold(whole), tail + [0x80] + Zeros(63 - |tail|)), Zeros(56) + length)
         == Fold(Pad(whole + tail))
  {
    hide Compress, Fold, BigEndian, Zeros, Pad;
    var first: Block := tail + [0x80] + Zeros(63 - |tail|);
    PadLong(whole, tail);
    FoldBlock(whole, first);
    FoldBlock(whole + first, Zeros(56) + length);
  }

  /** Byte `j` of each of the five words is in its place. */
  ghost predicate Column(hash: seq<bv8>, h: Words, j: nat)
    requires |hash| >= 20 && j < 4
  {
    && hash[j] == ByteOf(h.a, j) && hash[j + 4] == ByteOf(h.b, j) && hash[j + 8] == ByteOf(h.c, j)
    && hash[j + 12] == ByteOf(h.d, j) && hash[j + 16] == ByteOf(h.e, j)
  }

  /** The last loop of sha1_final: the words go out with their bytes reversed. */
  method PutDigest(hash: array<bv8>, h: Words)
    requires hash.Length >= 20
    modifies hash
    ensures hash[..20] == DigestOf(h)
    ensures forall p :: 20 <= p < hash.Length ==> hash[p] == old(hash[p])
  {
    hide ByteOf;
    var i := 0;
    while i < 4
      invariant 0 <= i <= 4
      invariant forall j :: 0 <= j < i ==> Column(hash[..], h, j)
      invariant forall p :: 20 <= p < hash.Length ==> hash[p] == old(hash[p])
    {
      ghost var before := hash[..];
      hash[i] := ShiftedByte(h.a, i);
      hash[i + 4] := ShiftedByte(h.b, i);
      hash[i + 8] := ShiftedByte(h.c, i);
      hash[i + 12] := ShiftedByte(h.d, i);
      hash[i + 16] := ShiftedByte(h.e, i);
      forall j | 0 <= j <= i
        ensures Column(hash[..], h, j)
      {
        assert j < i ==> Column(before, h, j);
      }
      i := i + 1;
    }
    DigestInPlace(hash[..], h);
    assert hash[..20] == hash[..][..20];
  }

  /** One of the shifts by which a word goes out. */
  method ShiftedByte(w: bv32, i: nat) returns (b: bv8)
    requires i < 4
    ensures b == ByteOf(w, i)
  {
    ByteIs(w, i);
    hide ByteOf;
    b := ((w >> (24 - i * 8)) & 0xFF) as bv8;
  }

  lemma ByteIs(w: bv32, i: nat)
    requires i < 4
    ensures ByteOf(w, i) == ((w >> (24 - i * 8)) & 0xFF) as bv8
  {
    if i == 0 {
      TopByte(w);
    } else if i == 1 {
    } else if i == 2 {
    } else {
      assert w >> 0 == w;
    }
  }

  lemma TopByte(w: bv32)
    ensures (w >> 24) & 0xFF == w >> 24
  {
  }

  lemma DigestInPlace(s: seq<bv8>, h: Words)
    requires |s| >= 20
    requires forall j :: 0 <= j < 4 ==> Column(s, h, j)
    ensures s[..20] == DigestOf(h)
  {
    hide ByteOf, WordBytes, Column;
    WordsInPlace(s, h);
    assert s[..20] == s[0..4] + s[4..8] + s[8..12] + s[12..16] + s[16..20];
  }

  lemma WordsInPlace(s: seq<bv8>, h: Words)
    requires |s| >= 20
    requires forall j :: 0 <= j < 4 ==> Column(s, h, j)
    ensures s[0..4] == WordBytes(h.a) && s[4..8] == WordBytes(h.b) && s[8..12] == WordBytes(h.c)
    ensures s[12..16] == WordBytes(h.d) && s[16..20] == WordBytes(h.e)
  {
    hide ByteOf, WordBytes;
    assert Column(s, h, 0) && Column(s, h, 1) && Column(s, h, 2) && Column(s, h, 3);
    FourBytes(s, 0, h.a);
    FourBytes(s, 4, h.b);
    FourBytes(s, 8, h.c);
    FourBytes(s, 12, h.d);
    FourBytes(s, 16, h.e);
  }

  lemma FourBytes(s: seq<bv8>, at: nat, w: bv32)
    requires at + 4 <= |s|
    requires s[at] == ByteOf(w, 0) && s[at + 1] == ByteOf(w, 1) && s[at + 2] == ByteOf(w, 2)
    requires s[at + 3] == ByteOf(w, 3)
    ensures s[at..at + 4] == WordBytes(w)
  {
    hide ByteOf;
  }

  lemma LengthInBits(whole: nat, datalen: nat)
    requires 8 * (whole + datalen) < TWO_64
    ensures (8 * whole % TWO_64 + datalen * 8) % TWO_64 == 8 * (whole + datalen)
  {
  }

  lemma OneBlockMore(whole: nat)
    requires whole % 64 == 0
    ensures (whole + 64) % 64 == 0 && (8 * whole % TWO_64 + 512) % TWO_64 == 8 * (whole + 64) % TWO_64
  {
  }

  class Context {
    const data: array<bv8>
    var datalen: nat
    var bitlen: nat
    const state: array<bv32>
    const k: array<bv32>

    /** The blocks that are already in the hash value. */
    ghost var whole: seq<bv8>

    ghost predicate Shaped()
      reads this, k
    {
      && data.Length == 64 && state.Length == 5 && k.Length == 4 && k != state
      && k[..] == CONSTANTS
    }

    /** Everything given to Update so far: the hashed blocks and what the buffer holds. */
    ghost function Message(): seq<bv8>
      requires Shaped() && datalen < 64
      reads this, data, k
    {
      whole + data[..datalen]
    }

    ghost predicate Valid()
      reads this, data, state, k
    {
      && Shaped() && datalen < 64
      && |whole| % 64 == 0 && WordsOf(state[..]) == Fold(whole)
      && bitlen == 8 * |whole| % TWO_64
    }

    constructor ()
      ensures Valid() && Message() == [] && fresh(data) && fresh(state) && fresh(k)
    {
      data := new bv8[64];
      datalen, bitlen := 0, 0;
      state := new bv32[5] [0x67452301, 0xEFCDAB89, 0x98BADCFE, 0x10325476, 0xC3D2E1F0];
      k := new bv32[4] [0x5A827999, 0x6ED9EBA1, 0x8F1BBCDC, 0xCA62C1D6];
      whole := [];
      new;
      assert k[..] == CONSTANTS;
      assert WordsOf(state[..]) == INITIAL;
      assert Fold([]) == INITIAL;
      hide Fold;
    }

    method Transform()
      requires Shaped()
      modifies state
      ensures Shaped() && WordsOf(state[..]) == Compress(old(WordsOf(state[..])), data[..])
    {
      hide Rounds, Plus;
      var h := WordsOf(state[..]);
      var v := EightyRounds(data, k, h);
      AddTo(v);
    }

    method AddTo(v: Words)
      requires Shaped()
      modifies state
      ensures Shaped() && WordsOf(state[..]) == Plus(old(WordsOf(state[..])), v)
    {
      hide Add;
      state[0] := AddTwo(state[0], v.a);
      state[1] := AddTwo(state[1], v.b);
      state[2] := AddTwo(state[2], v.c);
      state[3] := AddTwo(state[3], v.d);
      state[4] := AddTwo(state[4], v.e);
    }

    method Update(bytes: seq<bv8>)
      requires Valid()
      modifies this, data, state
      ensures Valid() && Message() == old(Message()) + bytes
    {
      hide Fold, WordsOf;
      var i := 0;
      while i < |bytes|
        invariant 0 <= i <= |bytes|
        invariant Valid() && Message() == old(Message()) + bytes[..i]
      {
        assert bytes[..i + 1] == bytes[..i] + [bytes[i]];
        UpdateByte(bytes[i]);
        i := i + 1;
      }
      assert bytes[..i] == bytes;
    }

    /** One round of the loop of sha1_update. */
    method UpdateByte(b: bv8)
      requires Valid()
      modifies this, data, state
      ensures Valid() && Message() == old(Message()) + [b]
    {
      hide Fold, Compress, WordsOf;
      data[datalen] := b;
      datalen := datalen + 1;
      assert data[..datalen] == old(data[..datalen]) + [b];
      if datalen == 64 {
        FlushBlock();
      }
    }

    /** What sha1_update does with a full buffer. */
    method FlushBlock()
      requires Shaped() && datalen == 64
      requires |whole| % 64 == 0 && WordsOf(state[..]) == Fold(whole) && bitlen == 8 * |whole| % TWO_64
      modifies this, state
      ensures Valid() && Message() == old(whole + data[..])
    {
      hide Fold, Compress, WordsOf, Rounds, BigEndian;
      FoldBlock(whole, data[..]);
      OneBlockMore(|whole|);
      Transform();
      whole := whole + data[..];
      bitlen := (bitlen + 512) % TWO_64;
      datalen := 0;
    }

    /** Pads, appends the length in bits, and writes the digest. The context is used up. */
    method Final(hash: array<bv8>)
      requires Valid() && hash.Length >= 20 && hash != data && 8 * |Message()| < 0x1_0000_0000_0000_0000
      modifies this, data, state, hash
      ensures hash[..20] == Sha1(old(Message()))
      ensures forall p :: 20 <= p < hash.Length ==> hash[p] == old(hash[p])
    {
      hide Compress, WordsOf, Fold, Pad, DigestOf;
      FinishBlocks();
      PutDigest(hash, WordsOf(state[..]));
    }

    /** All of sha1_final up to the copying of the words. */
    method FinishBlocks()
      requires Valid() && 8 * |Message()| < TWO_64
      modifies this, data, state
      ensures Shaped() && WordsOf(state[..]) == Fold(Pad(old(Message())))
    {
      hide Compress, WordsOf, Fold, Pad, BigEndian;
      LengthInBits(|whole|, datalen);
      FillToEnd();
      bitlen := (bitlen + datalen * 8) % TWO_64;
      PutLength();
      Transform();
    }

    /** The first part of sha1_final: one bit, zeros, and an extra block when the length does not fit behind them. */
    method FillToEnd()
      requires Valid()
      modifies data, state
      ensures Shaped()
      ensures Compress(WordsOf(state[..]), data[..56] + BigEndian(8 * |old(Message())|, 8)) == Fold(Pad(old(Message())))
    {
      hide *;
      if datalen < 56 {
        EndShort();
      } else {
        EndLong();
      }
    }

    method EndShort()
      requires Valid() && datalen < 56
      modifies data
      ensures Shaped()
      ensures Compress(WordsOf(state[..]), data[..56] + BigEndian(8 * |old(Message())|, 8)) == Fold(Pad(old(Message())))
    {
      hide Compress, WordsOf, Fold, Zeros, Pad, BigEndian;
      PadsShort(whole, data[..datalen], BigEndian(8 * |Message()|, 8));
      FillShort();
    }

    method EndLong()
      requires Valid() && 56 <= datalen
      modifies data, state
      ensures Shaped()
      ensures Compress(WordsOf(state[..]), data[..56] + BigEndian(8 * |old(Message())|, 8)) == Fold(Pad(old(Message())))
    {
      hide Compress, WordsOf, Fold, Zeros, Pad, BigEndian;
      PadsLong(whole, data[..datalen], BigEndian(8 * |Message()|, 8));
      FillLong();
    }

    method FillShort()
      requires Shaped() && datalen < 56
      modifies data
      ensures Shaped() && state[..] == old(state[..])
      ensures data[..56] == old(data[..datalen]) + [0x80] + Zeros(55 - datalen)
    {
      ghost var tail := data[..datalen];
      hide Zeros;
      data[datalen] := 0x80;
      assert data[..datalen + 1] == tail + [0x80];
      FillZeros(datalen + 1, 56);
    }

    method FillLong()
      requires Shaped() && 56 <= datalen < 64
      modifies data, state
      ensures Shaped() && data[..56] == Zeros(56)
      ensures WordsOf(state[..])
           == Compress(old(WordsOf(state[..])), old(data[..datalen]) + [0x80] + Zeros(63 - datalen))
    {
      ghost var tail := data[..datalen];
      hide Zeros, Compress, WordsOf;
      data[datalen] := 0x80;
      assert data[..datalen + 1] == tail + [0x80];
      FillZeros(datalen + 1, 64);
      assert data[..] == tail + [0x80] + Zeros(63 - datalen);
      Transform();
      FillZeros(0, 56);
    }

    method FillZeros(from: nat, to: nat)
      requires Shaped() && from <= to <= 64
      modifies data
      ensures data[..] == old(data[..from]) + Zeros(to - from) + old(data[to..])
    {
      var i := from;
      while i < to
        invariant from <= i <= to
        invariant forall j :: 0 <= j < 64 ==> data[j] == if from <= j < i then 0 else old(data[j])
      {
        data[i] := 0;
        i := i + 1;
      }
    }

    method PutLength()
      requires Shaped()
      modifies data
      ensures data[..] == old(data[..56]) + BigEndian(bitlen, 8)
    {
      BigEndian8(bitlen);
      hide LowByte, BigEndian;
      data[63] := ToByte(bitlen);
      data[62] := ToByte(bitlen / 0x100);
      data[61] := ToByte(bitlen / 0x1_0000);
      data[60] := ToByte(bitlen / 0x100_0000);
      data[59] := ToByte(bitlen / 0x1_0000_0000);
      data[58] := ToByte(bitlen / 0x100_0000_0000);
      data[57] := ToByte(bitlen / 0x1_0000_0000_0000);
      data[56] := ToByte(bitlen / 0x100_0000_0000_0000);
    }
  }

  function Concat(chunks: seq<seq<bv8>>): seq<bv8> {
    if chunks == [] then [] else Concat(chunks[..|chunks| - 1]) + chunks[|chunks| - 1]
  }

  /** However a message is cut into updates, the digest is that of the whole message. */
  method DigestOfChunks(chunks: seq<seq<bv8>>) returns (hash: array<bv8>)
    requires 8 * |Concat(chunks)| < 0x1_0000_0000_0000_0000
    ensures hash.Length == 20 && hash[..] == Sha1(Concat(chunks))
  {
    hide Sha1, Fold, WordsOf;
    var ctx := new Context();
    var i := 0;
    while i < |chunks|
      invariant 0 <= i <= |chunks|
      invariant fresh(ctx) && fresh(ctx.data) && fresh(ctx.state) && fresh(ctx.k)
      invariant ctx.Valid() && ctx.Message() == Concat(chunks[..i])
    {
      assert chunks[..i + 1][..i] == chunks[..i];
      ctx.Update(chunks[i]);
      i := i + 1;
    }
    assert chunks[..i] == chunks;
    hash := new bv8[20];
    ctx.Final(hash);
    assert hash[..] == hash[..20];
  }
}
