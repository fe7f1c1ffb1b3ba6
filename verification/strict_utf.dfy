/**
 Strict UTF-8 and UTF-16 conversion: malformed input becomes U+FFFD, so output is
 always well-formed. Code points are integers; masks and shifts are arithmetic.
 */
module StrictUtf {
  import opened Basics
  import opened Mutf8

  const UNICODE_MAX := 0x10_FFFF
  const BMP_END := 0xFFFF

  predicate Scalar(cp: int) {
    0 <= cp <= UNICODE_MAX && !(0xD800 <= cp < 0xE000)
  }

  predicate IsHigh(u: Utf16) { u / 1024 == 54 }

  predicate IsLow(u: Utf16) { u / 1024 == 55 }

  // ----- code point by code point

  /** decode_utf16: a BMP unit, a matched pair, or the replacement; and the units used. */
  function Point16(u: seq<Utf16>): (r: (int, nat))
    requires u != []
    ensures 1 <= r.1 <= |u|
  {
    var high: int := u[0];
    if high / 2048 != 27 then (high, 1)
    else if !IsHigh(high) then (REPLACEMENT, 1)
    else if |u| == 1 then (REPLACEMENT, 1)
    else if !IsLow(u[1]) then (REPLACEMENT, 1)
    else (0x1_0000 + high % 1024 * 1024 + u[1] % 1024, 2)
  }

  function Length8(cp: int): nat {
    if cp <= 0x7F then 1 else if cp <= 0x7FF then 2 else if cp <= 0xFFFF then 3 else 4
  }

  function Put8(cp: int): seq<Byte>
    requires 0 <= cp <= UNICODE_MAX
  {
    if cp <= 0x7F then [cp]
    else if cp <= 0x7FF then [0xC0 + cp / 64, 0x80 + cp % 64]
    else if cp <= 0xFFFF then [0xE0 + cp / 4096, 0x80 + cp / 64 % 64, 0x80 + cp % 64]
    else [0xF0 + cp / 0x4_0000, 0x80 + cp / 4096 % 64, 0x80 + cp / 64 % 64, 0x80 + cp % 64]
  }

  /** Length announced by a leading byte and the bits it carries; length 0 for no known pattern. */
  function Lead(b: Byte): (nat, nat) {
    if b < 0x80 then (1, b)
    else if b / 32 == 6 then (2, b % 32)
    else if b / 16 == 14 then (3, b % 16)
    else if b / 8 == 30 then (4, b % 8)
    else (0, 0)
  }

  datatype Scanned = Broken(used: nat) | Whole(cp: nat, used: nat)

  /** Collects `need` continuation bytes from position `j`; stops before the first byte that is none. */
  function Scan(s: seq<Byte>, j: nat, need: nat, cp: nat): (r: Scanned)
    requires 1 <= j <= |s|
    ensures j <= r.used <= |s|
    decreases need
  {
    if need == 0 then Whole(cp, j)
    else if j == |s| || !IsCont(s[j]) then Broken(j)
    else Scan(s, j + 1, need - 1, cp * 64 + Bits(s[j]))
  }

  /** decode_utf8: the continuation bytes that were accepted are used up even when the sequence is bad. */
  function Point8(s: seq<Byte>): (r: (int, nat))
    requires s != []
    ensures 1 <= r.1 <= |s|
  {
    var (len, bits) := Lead(s[0]);
    if len == 0 then (REPLACEMENT, 1) else
    match Scan(s, 1, len - 1, bits)
    case Broken(used) => (REPLACEMENT, used)
    case Whole(cp, used) =>
      if Length8(cp) != len then (REPLACEMENT, used)
      else if cp < BMP_END && cp / 2048 == 27 then (REPLACEMENT, used)
      else if cp > UNICODE_MAX then (REPLACEMENT, used)
      else (cp, used)
  }

  // ----- whole strings

  function Points16(u: seq<Utf16>): seq<int>
    decreases |u|
  {
    if u == [] then [] else [Point16(u).0] + Points16(u[Point16(u).1..])
  }

  function Points8(s: seq<Byte>): seq<int>
    decreases |s|
  {
    if s == [] then [] else [Point8(s).0] + Points8(s[Point8(s).1..])
  }

  predicate Scalars(cps: seq<int>) {
    forall i :: 0 <= i < |cps| ==> Scalar(cps[i])
  }

  function Bytes(cps: seq<int>): seq<Byte>
    requires Scalars(cps)
  {
    if cps == [] then [] else Put8(cps[0]) + Bytes(cps[1..])
  }

  function Utf16s(cps: seq<int>): seq<Utf16>
    requires Scalars(cps)
  {
    if cps == [] then [] else Units(cps[0]) + Utf16s(cps[1..])
  }

  // ----- well-formedness, as the standards define it

  /** Length of the UTF-8 sequence at the start of `s` by the ABNF of RFC 3629, section 4; 0 if there is none. */
  function Sequence8(s: seq<Byte>): (n: nat)
    ensures n <= |s|
  {
    if |s| >= 1 && s[0] <= 0x7F then 1
    else if |s| >= 2 && 0xC2 <= s[0] <= 0xDF && 0x80 <= s[1] <= 0xBF then 2
    else if |s| >= 3 && 0x80 <= s[2] <= 0xBF &&
      ((s[0] == 0xE0 && 0xA0 <= s[1] <= 0xBF) || (0xE1 <= s[0] <= 0xEC && 0x80 <= s[1] <= 0xBF) ||
       (s[0] == 0xED && 0x80 <= s[1] <= 0x9F) || (0xEE <= s[0] <= 0xEF && 0x80 <= s[1] <= 0xBF)) then 3
    else if |s| >= 4 && 0x80 <= s[2] <= 0xBF && 0x80 <= s[3] <= 0xBF &&
      ((s[0] == 0xF0 && 0x90 <= s[1] <= 0xBF) || (0xF1 <= s[0] <= 0xF3 && 0x80 <= s[1] <= 0xBF) ||
       (s[0] == 0xF4 && 0x80 <= s[1] <= 0x8F)) then 4
    else 0
  }

  predicate WellFormed8(s: seq<Byte>)
    decreases |s|
  {
    s == [] || (Sequence8(s) > 0 && WellFormed8(s[Sequence8(s)..]))
  }

  /** Units outside the surrogate range, and high-low pairs: RFC 2781, section 2. */
  predicate WellFormed16(u: seq<Utf16>)
    decreases |u|
  {
    u == [] ||
    (!(0xD800 <= u[0] < 0xE000) && WellFormed16(u[1..])) ||
    (|u| >= 2 && 0xD800 <= u[0] < 0xDC00 && 0xDC00 <= u[1] < 0xE000 && WellFormed16(u[2..]))
  }

  // ----- decoding yields scalars

  lemma Point16Scalar(u: seq<Utf16>)
    requires u != []
    ensures Scalar(Point16(u).0)
  {
  }

  lemma Point8Scalar(s: seq<Byte>)
    requires s != []
    ensures Scalar(Point8(s).0)
  {
    hide Scan, Lead;
  }

  lemma Points16Head(u: seq<Utf16>)
    requires u != []
    ensures var (cp, n) := Point16(u); Points16(u) == [cp] + Points16(u[n..])
  {
    hide Point16;
  }

  lemma Points8Head(s: seq<Byte>)
    requires s != []
    ensures var (cp, n) := Point8(s); Points8(s) == [cp] + Points8(s[n..])
  {
    hide Point8;
  }

  lemma BytesHead(cp: int, rest: seq<int>)
    requires Scalar(cp) && Scalars(rest)
    ensures Scalars([cp] + rest) && Bytes([cp] + rest) == Put8(cp) + Bytes(rest)
  {
    hide Put8, Scalar;
    assert ([cp] + rest)[1..] == rest;
  }

  lemma Utf16sHead(cp: int, rest: seq<int>)
    requires Scalar(cp) && Scalars(rest)
    ensures Scalars([cp] + rest) && Utf16s([cp] + rest) == Units(cp) + Utf16s(rest)
  {
    hide Units, Scalar;
    assert ([cp] + rest)[1..] == rest;
  }

  lemma {:induction false} Points16Scalars(u: seq<Utf16>)
    ensures Scalars(Points16(u))
    decreases |u|
  {
    if u != [] {
      Point16Scalar(u);
      Points16Scalars(u[Point16(u).1..]);
    }
  }

  lemma {:induction false} Points8Scalars(s: seq<Byte>)
    ensures Scalars(Points8(s))
    decreases |s|
  {
    hide Point8;
    if s != [] {
      Point8Scalar(s);
      Points8Scalars(s[Point8(s).1..]);
    }
  }

  // ----- one code point there and back

  lemma Put8Sequence(cp: int, rest: seq<Byte>)
    requires Scalar(cp)
    ensures Sequence8(Put8(cp) + rest) == |Put8(cp)| == Length8(cp)
  {
    var s := Put8(cp) + rest;
    if cp <= 0x7F {
      assert s[0] == cp;
    } else if cp <= 0x7FF {
      assert s[0] == 0xC0 + cp / 64 && s[1] == 0x80 + cp % 64;
    } else if cp <= 0xFFFF {
      assert s[0] == 0xE0 + cp / 4096 && s[1] == 0x80 + cp / 64 % 64 && s[2] == 0x80 + cp % 64;
      Bounds3(cp);
    } else {
      assert s[0] == 0xF0 + cp / 0x4_0000 && s[1] == 0x80 + cp / 4096 % 64;
      assert s[2] == 0x80 + cp / 64 % 64 && s[3] == 0x80 + cp % 64;
      Bounds4(cp);
    }
  }

  /** The second byte of three or four in the ranges that exclude overlong forms, surrogates and codes too large. */
  lemma Bounds3(cp: nat)
    requires 0x800 <= cp <= 0xFFFF && Scalar(cp)
    ensures cp / 4096 <= 15
    ensures cp / 4096 == 0 ==> cp / 64 % 64 >= 0x20
    ensures cp / 4096 == 13 ==> cp / 64 % 64 < 0x20
  {
    assert cp / 64 / 64 == cp / 4096;
  }

  lemma Bounds4(cp: nat)
    requires 0x1_0000 <= cp <= UNICODE_MAX
    ensures cp / 0x4_0000 <= 4
    ensures cp / 0x4_0000 == 0 ==> cp / 4096 % 64 >= 0x10
    ensures cp / 0x4_0000 == 4 ==> cp / 4096 % 64 < 0x10
  {
    assert cp / 4096 / 64 == cp / 0x4_0000;
  }

  lemma ContBits(b: Byte)
    requires 0x80 <= b <= 0xBF
    ensures IsCont(b) && b == 0x80 + Bits(b) && Bits(b) < 64
  {
  }

  lemma Sequence2Decodes(s: seq<Byte>)
    requires Sequence8(s) == 2
    ensures var cp := Lead(s[0]).1 * 64 + Bits(s[1]);
            Point8(s) == (cp, 2) && Next(s) == (cp, 2) && 0x80 <= cp <= 0x7FF && Put8(cp) == s[..2]
  {
    ContBits(s[1]);
    hide IsCont, Bits;
    assert Lead(s[0]).0 == 2 && s[0] == 0xC0 + Lead(s[0]).1;
    assert Scan(s, 1, 1, Lead(s[0]).1) == Scan(s, 2, 0, Lead(s[0]).1 * 64 + Bits(s[1]));
  }

  lemma Scan3(s: seq<Byte>, bits: nat)
    requires |s| >= 3 && 0x80 <= s[1] <= 0xBF && 0x80 <= s[2] <= 0xBF
    ensures Scan(s, 1, 2, bits) == Whole(bits * 4096 + Bits(s[1]) * 64 + Bits(s[2]), 3)
  {
    ContBits(s[1]);
    ContBits(s[2]);
    hide IsCont, Bits;
    assert Scan(s, 1, 2, bits) == Scan(s, 2, 1, bits * 64 + Bits(s[1]));
  }

  lemma Scan4(s: seq<Byte>, bits: nat)
    requires |s| >= 4 && 0x80 <= s[1] <= 0xBF && 0x80 <= s[2] <= 0xBF && 0x80 <= s[3] <= 0xBF
    ensures Scan(s, 1, 3, bits)
         == Whole(bits * 0x4_0000 + Bits(s[1]) * 4096 + Bits(s[2]) * 64 + Bits(s[3]), 4)
  {
    ContBits(s[1]);
    ContBits(s[2]);
    ContBits(s[3]);
    hide IsCont, Bits;
    assert Scan(s, 1, 3, bits) == Scan(s, 2, 2, bits * 64 + Bits(s[1]));
    assert Scan(s, 2, 2, bits * 64 + Bits(s[1])) == Scan(s, 3, 1, bits * 4096 + Bits(s[1]) * 64 + Bits(s[2]));
  }

  lemma Sequence3Decodes(s: seq<Byte>)
    requires Sequence8(s) == 3
    ensures var cp := Lead(s[0]).1 * 4096 + Bits(s[1]) * 64 + Bits(s[2]);
            Point8(s) == (cp, 3) && Next(s) == (cp, 3) && Scalar(cp) && 0x800 <= cp <= 0xFFFF
  {
    ContBits(s[1]);
    ContBits(s[2]);
    Scan3(s, Lead(s[0]).1);
    hide IsCont, Bits, Scan;
    assert Lead(s[0]).0 == 3 && s[0] == 0xE0 + Lead(s[0]).1;
  }

  lemma Sequence4Decodes(s: seq<Byte>)
    requires Sequence8(s) == 4
    ensures var cp := Lead(s[0]).1 * 0x4_0000 + Bits(s[1]) * 4096 + Bits(s[2]) * 64 + Bits(s[3]);
            Point8(s) == (cp, 4) && Next(s) == (cp, 4) && 0x1_0000 <= cp <= UNICODE_MAX
  {
    ContBits(s[1]);
    ContBits(s[2]);
    ContBits(s[3]);
    Scan4(s, Lead(s[0]).1);
    hide IsCont, Bits, Scan;
    assert Lead(s[0]).0 == 4 && s[0] == 0xF0 + Lead(s[0]).1;
  }

  lemma LastDigit(q: nat, r: nat)
    requires r < 64
    ensures (q * 64 + r) / 64 == q && (q * 64 + r) % 64 == r
  {
  }

  lemma Quotients(cp: nat)
    ensures cp / 64 / 64 == cp / 4096 && cp / 4096 / 64 == cp / 0x4_0000
  {
  }

  /** Base-64 digits of a three or four byte code point. */
  lemma Digits(a: nat, b: nat, c: nat, d: nat)
    requires b < 64 && c < 64 && d < 64
    ensures var cp := a * 0x4_0000 + b * 4096 + c * 64 + d;
            cp / 0x4_0000 == a && cp / 4096 % 64 == b && cp / 64 % 64 == c && cp % 64 == d && cp / 4096 == a * 64 + b
  {
    var q1 := a * 64 + b;
    var q2 := q1 * 64 + c;
    LastDigit(a, b);
    LastDigit(q1, c);
    LastDigit(q2, d);
    Quotients(q2 * 64 + d);
    assert q2 * 64 + d == a * 0x4_0000 + b * 4096 + c * 64 + d;
  }

  lemma Sequence3Encodes(s: seq<Byte>)
    requires Sequence8(s) == 3
    ensures Put8(Point8(s).0) == s[..3]
  {
    Sequence3Decodes(s);
    ContBits(s[1]);
    ContBits(s[2]);
    assert s[0] == 0xE0 + Lead(s[0]).1;
    Digits(0, Lead(s[0]).1, Bits(s[1]), Bits(s[2]));
    hide Point8, Next, Lead, Bits, IsCont;
    assert s[..3] == [s[0], s[1], s[2]];
  }

  lemma Sequence4Encodes(s: seq<Byte>)
    requires Sequence8(s) == 4
    ensures Put8(Point8(s).0) == s[..4]
  {
    Sequence4Decodes(s);
    ContBits(s[1]);
    ContBits(s[2]);
    ContBits(s[3]);
    assert s[0] == 0xF0 + Lead(s[0]).1;
    Digits(Lead(s[0]).1, Bits(s[1]), Bits(s[2]), Bits(s[3]));
    hide Point8, Next, Lead, Bits, IsCont;
    assert s[..4] == [s[0], s[1], s[2], s[3]];
  }

  /** A sequence of the standard decodes, in both decoders, to a scalar that encodes to the same bytes. */
  lemma SequenceDecodes(s: seq<Byte>)
    requires Sequence8(s) > 0
    ensures var n := Sequence8(s);
            var (cp, used) := Point8(s);
            && used == n && Scalar(cp) && Put8(cp) == s[..n]
            && Next(s) == (cp, n)
  {
    var n := Sequence8(s);
    if n == 1 {
    } else if n == 2 {
      Sequence2Decodes(s);
    } else if n == 3 {
      Sequence3Decodes(s);
      Sequence3Encodes(s);
    } else {
      Sequence4Decodes(s);
      Sequence4Encodes(s);
    }
  }

  /** The length a leading byte announces; 1 for a byte that is none. */
  function Announced(b: Byte): nat {
    if 0xC0 <= b <= 0xDF then 2 else if 0xE0 <= b <= 0xEF then 3 else if 0xF0 <= b <= 0xF7 then 4 else 1
  }

  lemma LeadIs(b: Byte)
    ensures Lead(b).0 == if 0x80 <= b <= 0xBF || b >= 0xF8 then 0 else Announced(b)
    ensures b <= 0x7F ==> Lead(b).1 == b
    ensures 0xC0 <= b <= 0xDF ==> Lead(b).1 == b - 0xC0
    ensures 0xE0 <= b <= 0xEF ==> Lead(b).1 == b - 0xE0
    ensures 0xF0 <= b <= 0xF7 ==> Lead(b).1 == b - 0xF0
  {
  }

  /** The scan uses up trailing bytes and stops at the length wanted, at the end, or at another byte. */
  lemma {:induction false} ScanUses(s: seq<Byte>, j: nat, need: nat, cp: nat)
    requires 1 <= j <= |s|
    ensures var r := Scan(s, j, need, cp);
            && j <= r.used <= j + need && (forall k :: j <= k < r.used ==> Trail(s[k]))
            && (r.used == j + need || r.used == |s| || !Trail(s[r.used]))
            && (r.Whole? <==> r.used == j + need)
    decreases need
  {
    if need > 0 && j < |s| {
      TrailIsCont(s[j]);
      if IsCont(s[j]) {
        ScanUses(s, j + 1, need - 1, cp * 64 + Bits(s[j]));
      }
    }
  }

  lemma Whole2(s: seq<Byte>, bits: nat)
    requires |s| >= 2 && Trail(s[1])
    ensures Scan(s, 1, 1, bits) == Whole(bits * 64 + Low6(s[1]), 2)
  {
    TrailIsCont(s[1]);
    hide IsCont, Bits;
    assert Scan(s, 1, 1, bits) == Scan(s, 2, 0, bits * 64 + Bits(s[1]));
  }

  /** A whole scan that passes all tests is a sequence of the standard. */
  lemma PassedIsSequence(s: seq<Byte>)
    requires s != [] && Lead(s[0]).0 > 0
    requires var (len, bits) := Lead(s[0]); Scan(s, 1, len - 1, bits).Whole?
    requires var (len, bits) := Lead(s[0]);
             var cp := Scan(s, 1, len - 1, bits).cp;
             Length8(cp) == len && !(cp < BMP_END && cp / 2048 == 27) && cp <= UNICODE_MAX
    ensures Sequence8(s) > 0
  {
    LeadIs(s[0]);
    var (len, bits) := Lead(s[0]);
    ScanUses(s, 1, len - 1, bits);
    hide Lead, Scan;
    if len == 2 {
      Whole2(s, bits);
    } else if len == 3 {
      Scan3(s, bits);
      TrailIsCont(s[1]);
      TrailIsCont(s[2]);
      hide Bits, IsCont;
    } else if len == 4 {
      Scan4(s, bits);
      TrailIsCont(s[1]);
      TrailIsCont(s[2]);
      TrailIsCont(s[3]);
      hide Bits, IsCont;
    }
  }

  /**
   Bytes that start no sequence of the standard are one U+FFFD, and what is used up is the
   first byte and the trailing bytes behind it, as many as it announces.
   */
  lemma IllFormed8(s: seq<Byte>)
    requires s != [] && Sequence8(s) == 0
    ensures var (cp, used) := Point8(s);
            && cp == 0xFFFD && used <= Announced(s[0])
            && (forall k :: 1 <= k < used ==> Trail(s[k]))
            && (used == Announced(s[0]) || used == |s| || !Trail(s[used]))
  {
    LeadIs(s[0]);
    var (len, bits) := Lead(s[0]);
    if len > 0 {
      ScanUses(s, 1, len - 1, bits);
      var r := Scan(s, 1, len - 1, bits);
      if r.Whole? && Length8(r.cp) == len && !(r.cp < BMP_END && r.cp / 2048 == 27) && r.cp <= UNICODE_MAX {
        PassedIsSequence(s);
      }
    }
    hide Lead, Scan, Sequence8, Length8;
  }

  /** A unit outside the surrogates is itself, a high and a low one are a pair, and any other is U+FFFD for one unit. */
  lemma Point16Exact(u: seq<Utf16>)
    requires u != []
    ensures var unit: int := u[0];
            if !(0xD800 <= unit <= 0xDFFF) then Point16(u) == (unit, 1)
            else if unit <= 0xDBFF && |u| >= 2 && 0xDC00 <= u[1] <= 0xDFFF then
              var low: int := u[1];
              Point16(u) == (0x1_0000 + (unit - 0xD800) * 0x400 + (low - 0xDC00), 2)
            else Point16(u) == (0xFFFD, 1)
  {
    assert u[0] / 2048 == 27 <==> 0xD800 <= u[0] <= 0xDFFF;
    assert IsHigh(u[0]) <==> 0xD800 <= u[0] <= 0xDBFF;
    if |u| >= 2 {
      assert IsLow(u[1]) <==> 0xDC00 <= u[1] <= 0xDFFF;
    }
  }

  /** A code point is determined by its base-64 digits. */
  lemma Compose(cp: nat)
    ensures cp == cp / 64 * 64 + cp % 64
    ensures cp == cp / 4096 * 4096 + cp / 64 % 64 * 64 + cp % 64
    ensures cp == cp / 0x4_0000 * 0x4_0000 + cp / 4096 % 64 * 4096 + cp / 64 % 64 * 64 + cp % 64
  {
    Quotients(cp);
  }

  lemma Put8Injective(a: int, b: int)
    requires Scalar(a) && Scalar(b) && Put8(a) == Put8(b)
    ensures a == b
  {
    Compose(a);
    Compose(b);
    var s, t := Put8(a), Put8(b);
    assert |s| == |t| && forall i :: 0 <= i < |s| ==> s[i] == t[i];
  }

  lemma PointOfPut8(cp: int, rest: seq<Byte>)
    requires Scalar(cp)
    ensures Point8(Put8(cp) + rest) == (cp, |Put8(cp)|)
  {
    var s := Put8(cp) + rest;
    Put8Sequence(cp, rest);
    SequenceDecodes(s);
    hide Put8, Point8, Next, Sequence8;
    assert s[..|Put8(cp)|] == Put8(cp);
    Put8Injective(cp, Point8(s).0);
  }

  lemma PointOfUnits(cp: int, rest: seq<Utf16>)
    requires Scalar(cp)
    ensures Point16(Units(cp) + rest) == (cp, |Units(cp)|)
  {
    var u := Units(cp) + rest;
    if cp > 0xFFFF {
      var v := cp - 0x1_0000;
      assert u[0] == 0xD800 + v / 1024 && u[1] == 0xDC00 + v % 1024;
      assert u[0] / 1024 == 54 && u[1] / 1024 == 55;
    }
  }

  // ----- whole strings there and back

  lemma {:induction false} Points8OfBytes(cps: seq<int>)
    requires Scalars(cps)
    ensures Points8(Bytes(cps)) == cps
  {
    if cps != [] {
      var head, tail := Put8(cps[0]), Bytes(cps[1..]);
      PointOfPut8(cps[0], tail);
      Points8OfBytes(cps[1..]);
      hide Put8, Point8;
      assert (head + tail)[|head|..] == tail;
    }
  }

  lemma {:induction false} Points16OfUtf16s(cps: seq<int>)
    requires Scalars(cps)
    ensures Points16(Utf16s(cps)) == cps
  {
    if cps != [] {
      var head, tail := Units(cps[0]), Utf16s(cps[1..]);
      PointOfUnits(cps[0], tail);
      Points16OfUtf16s(cps[1..]);
      hide Units, Point16;
      assert (head + tail)[|head|..] == tail;
    }
  }

  lemma {:induction false} BytesWellFormed(cps: seq<int>)
    requires Scalars(cps)
    ensures WellFormed8(Bytes(cps))
  {
    if cps != [] {
      var head, tail := Put8(cps[0]), Bytes(cps[1..]);
      Put8Sequence(cps[0], tail);
      BytesWellFormed(cps[1..]);
      hide Put8, Sequence8;
      assert (head + tail)[|head|..] == tail;
    }
  }

  lemma {:induction false} Utf16sWellFormed(cps: seq<int>)
    requires Scalars(cps)
    ensures WellFormed16(Utf16s(cps))
  {
    if cps != [] {
      var head, tail := Units(cps[0]), Utf16s(cps[1..]);
      Utf16sWellFormed(cps[1..]);
      assert (head + tail)[|head|..] == tail;
    }
  }

  lemma {:induction false} BytesOfPoints8(s: seq<Byte>)
    requires WellFormed8(s)
    ensures Scalars(Points8(s)) && Bytes(Points8(s)) == s
    decreases |s|
  {
    hide Put8, Point8, Sequence8, Next, Scalar;
    if s == [] {
    } else {
      hide Points8, Bytes;
      var n := Sequence8(s);
      var (cp, used) := Point8(s);
      SequenceDecodes(s);
      BytesOfPoints8(s[n..]);
      Points8Head(s);
      BytesHead(cp, Points8(s[n..]));
      assert s == s[..n] + s[n..];
    }
  }

  lemma {:induction false} Utf16sOfPoints16(u: seq<Utf16>)
    requires WellFormed16(u)
    ensures Scalars(Points16(u)) && Utf16s(Points16(u)) == u
    decreases |u|
  {
    hide Point16, Units, WellFormed16, Scalar;
    if u == [] {
    } else {
      hide Points16, Utf16s;
      var (cp, n) := Point16(u);
      PairDecodes(u);
      Utf16sOfPoints16(u[n..]);
      Points16Head(u);
      Utf16sHead(cp, Points16(u[n..]));
      assert u == u[..n] + u[n..];
    }
  }

  lemma PairDecodes(u: seq<Utf16>)
    requires WellFormed16(u) && u != []
    ensures var (cp, n) := Point16(u);
            Scalar(cp) && Units(cp) == u[..n] && WellFormed16(u[n..])
  {
    if !(0xD800 <= u[0] < 0xE000) {
    } else {
      var high: int, low: int := u[0], u[1];
      var v := high % 1024 * 1024 + low % 1024;
      assert v / 1024 == u[0] % 1024 && v % 1024 == u[1] % 1024;
    }
  }

  // ----- the converters as functions, and what they promise

  function ToUtf8(u: seq<Utf16>): seq<Byte> {
    Points16Scalars(u);
    Bytes(Points16(u))
  }

  function ToUtf16(s: seq<Byte>): seq<Utf16> {
    Points8Scalars(s);
    Utf16s(Points8(s))
  }

  /** Whatever comes in, what goes out is well-formed. */
  lemma AlwaysWellFormed(u: seq<Utf16>, s: seq<Byte>)
    ensures WellFormed8(ToUtf8(u)) && WellFormed16(ToUtf16(s))
  {
    Points16Scalars(u);
    Points8Scalars(s);
    BytesWellFormed(Points16(u));
    Utf16sWellFormed(Points8(s));
  }

  /** UTF-8 survives the trip through UTF-16 exactly when it is well-formed. */
  lemma Utf8RoundTrip(s: seq<Byte>)
    ensures ToUtf8(ToUtf16(s)) == s <==> WellFormed8(s)
  {
    AlwaysWellFormed(ToUtf16(s), s);
    if WellFormed8(s) {
      BytesOfPoints8(s);
      Points16OfUtf16s(Points8(s));
    }
  }

  /** UTF-16 survives the trip through UTF-8 exactly when it is well-formed. */
  lemma Utf16RoundTrip(u: seq<Utf16>)
    ensures ToUtf16(ToUtf8(u)) == u <==> WellFormed16(u)
  {
    AlwaysWellFormed(u, ToUtf8(u));
    if WellFormed16(u) {
      Utf16sOfPoints16(u);
      Points8OfBytes(Points16(u));
    }
  }

  /** On well-formed UTF-8 the JNI decoder and the strict one agree unit for unit. */
  lemma {:induction false} DecodersAgree(s: seq<Byte>)
    requires WellFormed8(s)
    ensures Decode(s) == ToUtf16(s)
    decreases |s|
  {
    Points8Scalars(s);
    if s != [] {
      var n := Sequence8(s);
      SequenceDecodes(s);
      DecodersAgree(s[n..]);
      hide Put8, Point8, Sequence8, Next, Units;
      assert Points8(s)[1..] == Points8(s[n..]);
    }
  }
}
