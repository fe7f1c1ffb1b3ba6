/**
 JNI modified UTF-8. Shifts, masks and disjoint ors on unsigned values are written
 as division, remainder and addition.
 */
module Mutf8 {
  import opened Basics

  type Utf16 = u: int | 0 <= u < 0x1_0000

  const SIZE_MAX := 0xFFFF_FFFF
  const REPLACEMENT := 0xFFFD

  /** One UTF-16 unit, surrogates included, on its own; NUL takes two bytes. */
  function EncodeUnit(c: Utf16): seq<Byte> {
    if c != 0 && c < 0x80 then [c]
    else if c < 0x800 then [0xC0 + c / 64, 0x80 + c % 64]
    else [0xE0 + c / 4096, 0x80 + c / 64 % 64, 0x80 + c % 64]
  }

  function Encode(u: seq<Utf16>): seq<Byte> {
    if u == [] then [] else EncodeUnit(u[0]) + Encode(u[1..])
  }

  predicate IsCont(b: Byte) {
    b / 64 == 2
  }

  function Bits(b: Byte): nat {
    b % 64
  }

  /** The code at the start of `s` and the bytes it takes; malformed input yields the replacement for one byte. */
  function Next(s: seq<Byte>): (r: (int, nat))
    requires s != []
    ensures 0 <= r.0 <= 0x10_FFFF && 1 <= r.1 <= |s| && r.1 <= 4
  {
    var c := s[0];
    if c < 0x80 then
      (c, 1)
    else if c / 32 == 6 && |s| >= 2 && IsCont(s[1]) then
      var v := c % 32 * 64 + Bits(s[1]);
      if v >= 0x80 || v == 0 then (v, 2) else (REPLACEMENT, 1)
    else if c / 16 == 14 && |s| >= 3 && IsCont(s[1]) && IsCont(s[2]) then
      var v := c % 16 * 4096 + Bits(s[1]) * 64 + Bits(s[2]);
      if v >= 0x800 then (v, 3) else (REPLACEMENT, 1)
    else if c / 8 == 30 && |s| >= 4 && IsCont(s[1]) && IsCont(s[2]) && IsCont(s[3]) then
      var v := c % 8 * 0x4_0000 + Bits(s[1]) * 4096 + Bits(s[2]) * 64 + Bits(s[3]);
      if 0x1_0000 <= v <= 0x10_FFFF then (v, 4) else (REPLACEMENT, 1)
    else
      (REPLACEMENT, 1)
  }

  /** A code point above the BMP becomes a surrogate pair. */
  function Units(c: int): seq<Utf16>
    requires 0 <= c <= 0x10_FFFF
  {
    if c > 0xFFFF then [0xD800 + (c - 0x1_0000) / 1024, 0xDC00 + (c - 0x1_0000) % 1024] else [c]
  }

  function Decode(s: seq<Byte>): seq<Utf16>
    decreases |s|
  {
    if s == [] then [] else Units(Next(s).0) + Decode(s[Next(s).1..])
  }

  lemma EncodeHead(c: Utf16, rest: seq<Utf16>)
    ensures Encode([c] + rest) == EncodeUnit(c) + Encode(rest)
  {
    hide EncodeUnit;
    assert ([c] + rest)[1..] == rest;
  }

  lemma {:induction false} EncodeConcat(u: seq<Utf16>, v: seq<Utf16>)
    ensures Encode(u + v) == Encode(u) + Encode(v)
  {
    assert Encode([]) == [];
    hide EncodeUnit, Encode;
    if u == [] {
      assert u + v == v;
    } else {
      EncodeConcat(u[1..], v);
      EncodeHead(u[0], u[1..]);
      EncodeHead(u[0], u[1..] + v);
      assert u == [u[0]] + u[1..] && u + v == [u[0]] + (u[1..] + v);
    }
  }

  lemma Split2(c: Utf16)
    requires c < 0x800
    ensures (0xC0 + c / 64) / 32 == 6 && (0xC0 + c / 64) % 32 == c / 64
    ensures IsCont(0x80 + c % 64) && Bits(0x80 + c % 64) == c % 64
  {
  }

  lemma Split3(c: Utf16)
    ensures (0xE0 + c / 4096) / 16 == 14 && (0xE0 + c / 4096) / 32 == 7 && (0xE0 + c / 4096) % 16 == c / 4096
    ensures IsCont(0x80 + c / 64 % 64) && Bits(0x80 + c / 64 % 64) == c / 64 % 64
    ensures IsCont(0x80 + c % 64) && Bits(0x80 + c % 64) == c % 64
    ensures c / 4096 * 4096 + c / 64 % 64 * 64 + c % 64 == c
  {
    assert c / 64 / 64 == c / 4096;
  }

  /** The decoder reads back what the encoder wrote for one unit, whatever follows. */
  lemma NextOfEncoded(c: Utf16, rest: seq<Byte>)
    ensures Next(EncodeUnit(c) + rest) == (c, |EncodeUnit(c)|)
  {
    var s := EncodeUnit(c) + rest;
    if c != 0 && c < 0x80 {
    } else if c < 0x800 {
      Split2(c);
      hide IsCont, Bits;
      assert s[0] == 0xC0 + c / 64 && s[1] == 0x80 + c % 64;
    } else {
      Split3(c);
      hide IsCont, Bits;
      assert s[0] == 0xE0 + c / 4096 && s[1] == 0x80 + c / 64 % 64 && s[2] == 0x80 + c % 64;
    }
  }

  /** Decoding undoes encoding for every sequence of units: lone surrogates and NULs included. */
  lemma {:induction false} RoundTrip(u: seq<Utf16>)
    ensures Decode(Encode(u)) == u
  {
    if u != [] {
      var head, tail := EncodeUnit(u[0]), Encode(u[1..]);
      NextOfEncoded(u[0], tail);
      RoundTrip(u[1..]);
      assert Encode(u)[|head|..] == tail;
    }
  }

  /** Normalizing arbitrary bytes once is enough. */
  lemma NormalizeIdempotent(s: seq<Byte>)
    ensures var t := Encode(Decode(s)); Encode(Decode(t)) == t
  {
    RoundTrip(Decode(s));
  }

  /** The byte sequences of "Modified UTF-8 Strings", shortest forms only and without NUL bytes. */
  predicate Canonical(s: seq<Byte>)
    decreases |s|
  {
    s == [] ||
    (0 < s[0] < 0x80 && Canonical(s[1..])) ||
    (|s| >= 2 && IsCont(s[1]) && (0xC2 <= s[0] < 0xE0 || (s[0] == 0xC0 && s[1] == 0x80)) && Canonical(s[2..])) ||
    (|s| >= 3 && IsCont(s[1]) && IsCont(s[2]) && 0xE0 <= s[0] < 0xF0 && (s[0] == 0xE0 ==> s[1] >= 0xA0)
     && Canonical(s[3..]))
  }

  predicate Trail(b: Byte) {
    0x80 <= b <= 0xBF
  }

  /**
   Length of what the decoder accepts at the start of `s`, byte range by byte range: ASCII, the
   two-byte forms with 0xC0 0x80 for NUL, three bytes with surrogates, and four bytes as in
   section 4 of RFC 3629; 0 for anything else.
   */
  function Form(s: seq<Byte>): (n: nat)
    ensures n <= |s|
  {
    if |s| >= 1 && s[0] <= 0x7F then 1
    else if |s| >= 2 && Trail(s[1]) && (0xC2 <= s[0] <= 0xDF || (s[0] == 0xC0 && s[1] == 0x80)) then 2
    else if |s| >= 3 && Trail(s[1]) && Trail(s[2]) && (0xE1 <= s[0] <= 0xEF || (s[0] == 0xE0 && s[1] >= 0xA0)) then 3
    else if |s| >= 4 && Trail(s[1]) && Trail(s[2]) && Trail(s[3]) &&
      ((s[0] == 0xF0 && s[1] >= 0x90) || 0xF1 <= s[0] <= 0xF3 || (s[0] == 0xF4 && s[1] <= 0x8F)) then 4
    else 0
  }

  /** The number those bytes stand for. */
  function FormValue(s: seq<Byte>): int
    requires Form(s) > 0
  {
    var n, lead: int := Form(s), s[0];
    if n == 1 then lead
    else if n == 2 then (lead - 0xC0) * 64 + Low6(s[1])
    else if n == 3 then (lead - 0xE0) * 4096 + Low6(s[1]) * 64 + Low6(s[2])
    else (lead - 0xF0) * 0x4_0000 + Low6(s[1]) * 4096 + Low6(s[2]) * 64 + Low6(s[3])
  }

  function Low6(b: Byte): int {
    b - 0x80
  }

  lemma TrailIsCont(b: Byte)
    ensures IsCont(b) <==> Trail(b)
    ensures Trail(b) ==> Bits(b) == Low6(b)
  {
  }

  lemma LeadBits(b: Byte)
    ensures b / 32 == 6 <==> 0xC0 <= b <= 0xDF
    ensures b / 16 == 14 <==> 0xE0 <= b <= 0xEF
    ensures b / 8 == 30 <==> 0xF0 <= b <= 0xF7
    ensures 0xC0 <= b <= 0xDF ==> b % 32 == b - 0xC0
    ensures 0xE0 <= b <= 0xEF ==> b % 16 == b - 0xE0
    ensures 0xF0 <= b <= 0xF7 ==> b % 8 == b - 0xF0
  {
  }

  /** The decoder reads an accepted form as its number; anything else is U+FFFD for one byte. */
  lemma NextExact(s: seq<Byte>)
    requires s != []
    ensures Next(s) == if Form(s) > 0 then (FormValue(s), Form(s)) else (0xFFFD, 1)
  {
    LeadBits(s[0]);
    forall j | 1 <= j < |s|
      ensures IsCont(s[j]) <==> Trail(s[j])
      ensures Trail(s[j]) ==> Bits(s[j]) == Low6(s[j])
    {
      TrailIsCont(s[j]);
    }
    hide IsCont, Bits;
  }

  /** What the encoder writes is canonical and has no NUL byte. */
  lemma {:induction false} EncodedIsCanonical(u: seq<Utf16>)
    ensures Canonical(Encode(u)) && 0 !in Encode(u)
  {
    if u != [] {
      EncodedIsCanonical(u[1..]);
      var head, tail := EncodeUnit(u[0]), Encode(u[1..]);
      assert Encode(u)[|head|..] == tail;
    }
  }

  lemma Join2(a: Byte, b: Byte)
    requires 0xC0 <= a < 0xE0 && IsCont(b)
    ensures a / 32 == 6 && var c := a % 32 * 64 + Bits(b); 0 <= c < 0x800 && 0xC0 + c / 64 == a && 0x80 + c % 64 == b
  {
  }

  lemma Join3(a: Byte, b: Byte, d: Byte)
    requires 0xE0 <= a < 0xF0 && IsCont(b) && IsCont(d)
    ensures a / 32 == 7 && a / 16 == 14
    ensures var c := a % 16 * 4096 + Bits(b) * 64 + Bits(d);
            0 <= c < 0x1_0000 && 0xE0 + c / 4096 == a && 0x80 + c / 64 % 64 == b && 0x80 + c % 64 == d
  {
    var c := a % 16 * 4096 + Bits(b) * 64 + Bits(d);
    assert c / 64 == a % 16 * 64 + Bits(b);
  }

  lemma CanonicalStep(s: seq<Byte>)
    requires Canonical(s) && s != []
    ensures var (c, n) := Next(s);
            c < 0x1_0000 && EncodeUnit(c) == s[..n] && Canonical(s[n..])
  {
    if s[0] < 0x80 {
    } else if s[0] < 0xE0 {
      Join2(s[0], s[1]);
      TwoByteForm(s);
    } else {
      Join3(s[0], s[1], s[2]);
      ThreeByteForm(s);
    }
  }

  lemma TwoByteForm(s: seq<Byte>)
    requires |s| >= 2 && IsCont(s[1]) && (0xC2 <= s[0] < 0xE0 || (s[0] == 0xC0 && s[1] == 0x80))
    ensures var c := s[0] % 32 * 64 + Bits(s[1]);
            Next(s) == (c, 2) && 0 <= c < 0x800 && EncodeUnit(c) == s[..2]
  {
    Join2(s[0], s[1]);
    hide IsCont;
  }

  lemma ThreeByteForm(s: seq<Byte>)
    requires |s| >= 3 && IsCont(s[1]) && IsCont(s[2]) && 0xE0 <= s[0] < 0xF0 && (s[0] == 0xE0 ==> s[1] >= 0xA0)
    ensures var c := s[0] % 16 * 4096 + Bits(s[1]) * 64 + Bits(s[2]);
            Next(s) == (c, 3) && 0x800 <= c < 0x1_0000 && EncodeUnit(c) == s[..3]
  {
    Join3(s[0], s[1], s[2]);
    assert s[0] == 0xE0 ==> Bits(s[1]) >= 32;
    hide IsCont, Bits;
  }

  /** The first unit of canonical bytes. */
  lemma CanonicalHead(s: seq<Byte>)
    requires Canonical(s) && s != []
    ensures var (c, n) := Next(s);
            && c < 0x1_0000 && EncodeUnit(c) == s[..n] && Canonical(s[n..])
            && Decode(s) == [c] + Decode(s[n..])
  {
    CanonicalStep(s);
    hide EncodeUnit, Canonical, Next;
  }

  lemma {:induction false} CanonicalIsFixed(s: seq<Byte>)
    requires Canonical(s)
    ensures Encode(Decode(s)) == s
    decreases |s|
  {
    hide EncodeUnit, Canonical, Next, Units;
    if s == [] {
      assert Decode(s) == [];
    } else {
      hide Encode, Decode;
      var (c, n) := Next(s);
      CanonicalHead(s);
      CanonicalIsFixed(s[n..]);
      EncodeHead(c, Decode(s[n..]));
      assert s == s[..n] + s[n..];
    }
  }

  /** Decoding loses nothing exactly on canonical input. */
  lemma LosslessIffCanonical(s: seq<Byte>)
    ensures Encode(Decode(s)) == s <==> Canonical(s)
  {
    if Canonical(s) {
      CanonicalIsFixed(s);
    } else {
      EncodedIsCanonical(Decode(s));
    }
  }

  lemma EncodeSnoc(u: seq<Utf16>, i: nat)
    requires i < |u|
    ensures Encode(u[..i + 1]) == Encode(u[..i]) + EncodeUnit(u[i])
    ensures |Encode(u[..i + 1])| <= |Encode(u)|
  {
    assert u[..i + 1] == u[..i] + [u[i]];
    EncodeConcat(u[..i], [u[i]]);
    assert Encode([u[i]]) == EncodeUnit(u[i]) + [];
    assert u == u[..i + 1] + u[i + 1..];
    EncodeConcat(u[..i + 1], u[i + 1..]);
  }

  /**
   Sizes (`out` null) or writes the encoding. Both passes return the same number:
   the encoded length, or SIZE_MAX when that does not fit the result.
   */
  method EncodeInto(input: seq<Utf16>, out: array?<Byte>) returns (n: nat)
    requires out != null ==> |Encode(input)| <= out.Length
    modifies out
    ensures n == if |Encode(input)| <= 0xFFFF_FFFF then |Encode(input)| else 0xFFFF_FFFF
    ensures out != null && |Encode(input)| <= 0xFFFF_FFFF ==>
              out[..n] == Encode(input) && forall j :: n <= j < out.Length ==> out[j] == old(out[j])
  {
    n := 0;
    var i := 0;
    while i < |input|
      invariant 0 <= i <= |input|
      invariant n == |Encode(input[..i])| <= SIZE_MAX && n <= |Encode(input)|
      invariant out != null ==> out[..n] == Encode(input[..i])
      invariant out != null ==> forall j :: n <= j < out.Length ==> out[j] == old(out[j])
    {
      var c := input[i];
      EncodeSnoc(input, i);
      var bytes := if c != 0 && c < 0x80 then 1 else if c < 0x800 then 2 else 3;
      if n > SIZE_MAX - bytes {
        return SIZE_MAX;
      }
      if out != null {
        PutUnit(c, out, n);
      }
      n := n + bytes;
      i := i + 1;
    }
    assert input[..i] == input;
  }

  method PutUnit(c: Utf16, out: array<Byte>, n: nat)
    requires n + |EncodeUnit(c)| <= out.Length
    modifies out
    ensures out[..n + |EncodeUnit(c)|] == old(out[..n]) + EncodeUnit(c)
    ensures forall j :: n + |EncodeUnit(c)| <= j < out.Length ==> out[j] == old(out[j])
  {
    if c != 0 && c < 0x80 {
      out[n] := c;
    } else if c < 0x800 {
      out[n] := 0xC0 + c / 64;
      out[n + 1] := 0x80 + c % 64;
    } else {
      out[n] := 0xE0 + c / 4096;
      out[n + 1] := 0x80 + c / 64 % 64;
      out[n + 2] := 0x80 + c % 64;
    }
  }

  /** Sizes or writes the decoding of any bytes; `out` needs room for what the sizing pass returns. */
  method DecodeInto(input: seq<Byte>, out: array?<Utf16>) returns (n: nat)
    requires out != null ==> |Decode(input)| <= out.Length
    modifies out
    ensures n == |Decode(input)| <= |input|
    ensures out != null ==> out[..n] == Decode(input) && forall j :: n <= j < out.Length ==> out[j] == old(out[j])
  {
    n := 0;
    var i := 0;
    ghost var done: seq<Utf16> := [];
    assert DecodedTo(input, i, done);
    hide Next, Units, Decode, DecodedTo;
    while i < |input|
      invariant 0 <= i <= |input| && n == |done| <= i
      invariant DecodedTo(input, i, done)
      invariant out != null ==> out[..n] == done
      invariant out != null ==> forall j :: n <= j < out.Length ==> out[j] == old(out[j])
    {
      var c, consumed := DecodeOne(input, i);
      DecodeAt(input, i, done);
      n := PutPoint(c, out, n);
      done := done + Units(c);
      i := i + consumed;
    }
    assert i == |input|;
    DecodedAll(input, done);
  }

  /** Counts the units of a code point and, given a buffer, writes them behind the first `n` places. */
  method PutPoint(c: int, out: array?<Utf16>, n: nat) returns (next: nat)
    requires 0 <= c <= 0x10_FFFF && (out != null ==> n + |Units(c)| <= out.Length)
    modifies out
    ensures next == n + |Units(c)|
    ensures out != null ==> out[..next] == old(out[..n]) + Units(c)
    ensures out != null ==> forall j :: next <= j < out.Length ==> out[j] == old(out[j])
  {
    next := n + if c > 0xFFFF then 2 else 1;
    if out != null {
      if c > 0xFFFF {
        out[n] := 0xD800 + (c - 0x1_0000) / 1024;
        out[n + 1] := 0xDC00 + (c - 0x1_0000) % 1024;
      } else {
        out[n] := c;
      }
    }
  }

  /** The units decoded before position `i`. */
  ghost predicate DecodedTo(input: seq<Byte>, i: nat, done: seq<Utf16>) {
    i <= |input| && Decode(input) == done + Decode(input[i..])
  }

  lemma DecodedAll(input: seq<Byte>, done: seq<Utf16>)
    requires DecodedTo(input, |input|, done)
    ensures done == Decode(input)
  {
    assert input[|input|..] == [];
  }

  lemma NextUnits(s: seq<Byte>)
    requires s != []
    ensures |Units(Next(s).0)| == (if Next(s).0 > 0xFFFF then 2 else 1) <= Next(s).1
  {
    hide IsCont, Bits;
  }

  lemma DecodeHead(s: seq<Byte>)
    requires s != []
    ensures Decode(s) == Units(Next(s).0) + Decode(s[Next(s).1..])
  {
    hide Next, Units;
  }

  lemma DecodeAt(input: seq<Byte>, i: nat, done: seq<Utf16>)
    requires i < |input| && DecodedTo(input, i, done)
    ensures var (c, consumed) := Next(input[i..]);
            && i + consumed <= |input|
            && |Units(c)| == (if c > 0xFFFF then 2 else 1) <= consumed
            && |done| + |Units(c)| <= |Decode(input)|
            && DecodedTo(input, i + consumed, done + Units(c))
  {
    hide Next, Units, Decode;
    var s := input[i..];
    var (c, consumed) := Next(s);
    NextUnits(s);
    DecodeHead(s);
    assert s[consumed..] == input[i + consumed..];
    assert done + (Units(c) + Decode(s[consumed..])) == (done + Units(c)) + Decode(s[consumed..]);
  }

  /** The branches of the decoder at position `i`; it looks at the remaining length before each byte. */
  method DecodeOne(input: seq<Byte>, i: nat) returns (c: int, consumed: nat)
    requires i < |input|
    ensures (c, consumed) == Next(input[i..])
  {
    c, consumed := input[i], 1;
    var left := |input| - i;
    if c < 0x80 {
    } else if c / 32 == 6 && left >= 2 && IsCont(input[i + 1]) {
      var value := c % 32 * 64 + Bits(input[i + 1]);
      if value >= 0x80 || value == 0 {
        c, consumed := value, 2;
      } else {
        c := REPLACEMENT;
      }
    } else if c / 16 == 14 && left >= 3 && IsCont(input[i + 1]) && IsCont(input[i + 2]) {
      var value := c % 16 * 4096 + Bits(input[i + 1]) * 64 + Bits(input[i + 2]);
      if value >= 0x800 {
        c, consumed := value, 3;
      } else {
        c := REPLACEMENT;
      }
    } else if c / 8 == 30 && left >= 4 && IsCont(input[i + 1]) && IsCont(input[i + 2]) && IsCont(input[i + 3]) {
      var value := c % 8 * 0x4_0000 + Bits(input[i + 1]) * 4096 + Bits(input[i + 2]) * 64 + Bits(input[i + 3]);
      if 0x1_0000 <= value <= 0x10_FFFF {
        c, consumed := value, 4;
      } else {
        c := REPLACEMENT;
      }
    } else {
      c := REPLACEMENT;
    }
  }
}
