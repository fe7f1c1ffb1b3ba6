/**
 The strict converter as code over buffers. A code point that does not fit the
 buffer is skipped, so a buffer of the sized length receives everything.
 */
module StrictConverter {
  import opened Basics
  import opened Mutf8
  import opened StrictUtf

  /** What is written for `cps` into a buffer of `len` bytes. */
  function Fit8(cps: seq<int>, len: nat): (s: seq<Byte>)
    requires Scalars(cps)
    ensures |s| <= len
  {
    if cps == [] then [] else
    var n := |cps| - 1;
    var before := Fit8(cps[..n], len);
    if |before| + |Put8(cps[n])| <= len then before + Put8(cps[n]) else before
  }

  function Fit16(cps: seq<int>, len: nat): (u: seq<Utf16>)
    requires Scalars(cps)
    ensures |u| <= len
  {
    if cps == [] then [] else
    var n := |cps| - 1;
    var before := Fit16(cps[..n], len);
    if |before| + |Units(cps[n])| <= len then before + Units(cps[n]) else before
  }

  lemma {:induction false} BytesSnoc(cps: seq<int>, cp: int)
    requires Scalars(cps) && Scalar(cp)
    ensures Bytes(cps + [cp]) == Bytes(cps) + Put8(cp)
  {
    hide Put8;
    if cps == [] {
      assert [cp][1..] == [];
      assert Bytes([cp]) == Put8(cp) + [];
    } else {
      BytesSnoc(cps[1..], cp);
      assert (cps + [cp])[1..] == cps[1..] + [cp];
    }
  }

  lemma {:induction false} Utf16sSnoc(cps: seq<int>, cp: int)
    requires Scalars(cps) && Scalar(cp)
    ensures Utf16s(cps + [cp]) == Utf16s(cps) + Units(cp)
  {
    hide Units;
    if cps == [] {
      assert [cp][1..] == [];
      assert Utf16s([cp]) == Units(cp) + [];
    } else {
      Utf16sSnoc(cps[1..], cp);
      assert (cps + [cp])[1..] == cps[1..] + [cp];
    }
  }

  /** A buffer of the sized length receives the whole conversion. */
  lemma {:induction false} Fit8All(cps: seq<int>, len: nat)
    requires Scalars(cps) && |Bytes(cps)| <= len
    ensures Fit8(cps, len) == Bytes(cps)
  {
    hide Put8, Scalar;
    if cps == [] {
    } else {
      hide Fit8, Bytes;
      var n := |cps| - 1;
      assert cps == cps[..n] + [cps[n]];
      Step8(cps[..n], cps[n], len);
      Fit8All(cps[..n], len);
    }
  }

  lemma {:induction false} Fit16All(cps: seq<int>, len: nat)
    requires Scalars(cps) && |Utf16s(cps)| <= len
    ensures Fit16(cps, len) == Utf16s(cps)
  {
    hide Units, Scalar;
    if cps == [] {
    } else {
      hide Fit16, Utf16s;
      var n := |cps| - 1;
      assert cps == cps[..n] + [cps[n]];
      Step16(cps[..n], cps[n], len);
      Fit16All(cps[..n], len);
    }
  }

  /** The code points decoded before position `i`. */
  ghost predicate ScannedTo16(u: seq<Utf16>, i: nat, done: seq<int>) {
    i <= |u| && Points16(u) == done + Points16(u[i..]) && Scalars(done)
  }

  ghost predicate ScannedTo8(s: seq<Byte>, i: nat, done: seq<int>) {
    i <= |s| && Points8(s) == done + Points8(s[i..]) && Scalars(done)
  }

  lemma Scan16Step(u: seq<Utf16>, i: nat, done: seq<int>)
    requires i < |u| && ScannedTo16(u, i, done)
    ensures var (cp, n) := Point16(u[i..]);
            Scalar(cp) && ScannedTo16(u, i + n, done + [cp])
  {
    var (cp, n) := Point16(u[i..]);
    Point16Scalar(u[i..]);
    assert u[i..][n..] == u[i + n..];
    hide Point16;
    assert done + ([cp] + Points16(u[i + n..])) == done + [cp] + Points16(u[i + n..]);
  }

  lemma Scan8Step(s: seq<Byte>, i: nat, done: seq<int>)
    requires i < |s| && ScannedTo8(s, i, done)
    ensures var (cp, n) := Point8(s[i..]);
            Scalar(cp) && ScannedTo8(s, i + n, done + [cp])
  {
    var (cp, n) := Point8(s[i..]);
    Point8Scalar(s[i..]);
    assert s[i..][n..] == s[i + n..];
    hide Point8;
    assert done + ([cp] + Points8(s[i + n..])) == done + [cp] + Points8(s[i + n..]);
  }

  lemma ScanEnds(u: seq<Utf16>, s: seq<Byte>, done: seq<int>)
    ensures ScannedTo16(u, 0, []) && ScannedTo8(s, 0, [])
    ensures ScannedTo16(u, |u|, done) ==> done == Points16(u)
    ensures ScannedTo8(s, |s|, done) ==> done == Points8(s)
  {
    assert u[0..] == u && s[0..] == s && u[|u|..] == [] && s[|s|..] == [];
  }

  /** decode_utf16: the index is left at the last unit of the code point. */
  method DecodeUtf16(utf16: seq<Utf16>, index: nat) returns (cp: int, last: nat)
    requires index < |utf16|
    ensures (cp, last - index + 1) == Point16(utf16[index..]) && index <= last < |utf16|
  {
    var high: int := utf16[index];
    last := index;
    if high / 2048 != 27 {
      return high, last;
    }
    if high / 1024 != 54 {
      return REPLACEMENT, last;
    }
    if index == |utf16| - 1 {
      return REPLACEMENT, last;
    }
    var low: int := utf16[index + 1];
    if low / 1024 != 55 {
      return REPLACEMENT, last;
    }
    last := last + 1;
    cp := high % 1024;
    cp := cp * 1024;
    cp := cp + low % 1024;
    cp := cp + 0x1_0000;
  }

  /** encode_utf8: continuation bytes from the last to the first, then the leading byte. */
  method EncodeUtf8(codepoint: int, utf8: array<Byte>, len: nat, index: nat) returns (size: nat)
    requires 0 <= codepoint <= UNICODE_MAX && len <= utf8.Length
    modifies utf8
    ensures size == if index + |Put8(codepoint)| > len then 0 else |Put8(codepoint)|
    ensures utf8[..] == if size == 0 then old(utf8[..]) else Overwritten(old(utf8[..]), index, Put8(codepoint))
  {
    hide Overwritten, Put8, Shifted;
    size := Length8(codepoint);
    Put8Parts(codepoint);
    if index + size > len {
      return 0;
    }
    var cp := codepoint;
    var k := size - 1;
    while k > 0
      invariant 0 <= k < size
      invariant cp == Shifted(codepoint, size - 1 - k)
      invariant forall j :: k < j < size ==> utf8[index + j] == Put8(codepoint)[j]
      invariant forall j :: 0 <= j < utf8.Length && !(index + k < j < index + size) ==> utf8[j] == old(utf8[j])
    {
      utf8[index + k] := 0x80 + cp % 64;
      cp := cp / 64;
      k := k - 1;
    }
    utf8[index] := Mark(size) + cp;
    OverwrittenAt(utf8[..], old(utf8[..]), index, Put8(codepoint));
  }

  /** The pattern of a leading byte. */
  function Mark(size: nat): int {
    if size == 1 then 0 else if size == 2 then 0xC0 else if size == 3 then 0xE0 else 0xF0
  }

  /** The bytes of a code point by its groups of six bits, from the last to the first. */
  lemma Put8Parts(cp: int)
    requires 0 <= cp <= UNICODE_MAX
    ensures var size := Length8(cp);
            && |Put8(cp)| == size && 1 <= size <= 4 && Shifted(cp, 0) == cp
            && (forall k :: 0 <= k < size - 1 ==> Shifted(cp, k + 1) == Shifted(cp, k) / 64)
            && (forall k :: 0 < k < size ==> Put8(cp)[k] == 0x80 + Shifted(cp, size - 1 - k) % 64)
            && Put8(cp)[0] == Mark(size) + Shifted(cp, size - 1)
  {
    Quotients(cp);
  }

  /** A code point without its last `k` groups of six bits. */
  function Shifted(cp: int, k: nat): int {
    if k == 0 then cp else if k == 1 then cp / 64 else if k == 2 then cp / 4096 else cp / 0x4_0000
  }

  lemma Lengths(cp: int)
    requires Scalar(cp)
    ensures 0 <= cp <= UNICODE_MAX && |Put8(cp)| == Length8(cp) > 0 && |Units(cp)| == Length16(cp)
  {
  }

  lemma Scalars1(done: seq<int>, cp: int)
    requires Scalars(done) && Scalar(cp)
    ensures Scalars(done + [cp])
  {
  }

  /** One more code point: what sizing counts and what writing writes. */
  lemma Step8(done: seq<int>, cp: int, len: nat)
    requires Scalars(done) && Scalar(cp)
    ensures Scalars(done + [cp]) && Bytes(done + [cp]) == Bytes(done) + Put8(cp)
    ensures Fit8(done + [cp], len)
         == if |Fit8(done, len)| + |Put8(cp)| <= len then Fit8(done, len) + Put8(cp) else Fit8(done, len)
  {
    BytesSnoc(done, cp);
    Scalars1(done, cp);
    hide Put8, Bytes, Scalars;
    var cps := done + [cp];
    assert cps[..|cps| - 1] == done && cps[|cps| - 1] == cp;
  }

  lemma Step16(done: seq<int>, cp: int, len: nat)
    requires Scalars(done) && Scalar(cp)
    ensures Scalars(done + [cp]) && Utf16s(done + [cp]) == Utf16s(done) + Units(cp)
    ensures Fit16(done + [cp], len)
         == if |Fit16(done, len)| + |Units(cp)| <= len then Fit16(done, len) + Units(cp) else Fit16(done, len)
  {
    Utf16sSnoc(done, cp);
    Scalars1(done, cp);
    hide Units, Utf16s, Scalars;
    var cps := done + [cp];
    assert cps[..|cps| - 1] == done && cps[|cps| - 1] == cp;
  }

  function Length16(cp: int): nat {
    if cp <= BMP_END then 1 else 2
  }

  lemma Converted(u: seq<Utf16>, s: seq<Byte>, len: nat)
    ensures Scalars(Points16(u)) && ToUtf8(u) == Bytes(Points16(u))
    ensures |ToUtf8(u)| <= len ==> Fit8(Points16(u), len) == ToUtf8(u)
    ensures Scalars(Points8(s)) && ToUtf16(s) == Utf16s(Points8(s))
    ensures |ToUtf16(s)| <= len ==> Fit16(Points8(s), len) == ToUtf16(s)
  {
    Points16Scalars(u);
    Points8Scalars(s);
    if |ToUtf8(u)| <= len {
      Fit8All(Points16(u), len);
    }
    if |ToUtf16(s)| <= len {
      Fit16All(Points8(s), len);
    }
  }

  /** The first `n` places of the buffer hold what fits of `done`; without a buffer `n` counts what is needed. */
  ghost predicate Progress8(utf8: array?<Byte>, len: nat, n: nat, done: seq<int>, was: seq<Byte>)
    requires utf8 != null ==> len <= utf8.Length
    reads utf8
  {
    && Scalars(done)
    && (utf8 == null ==> n == |Bytes(done)|)
    && (utf8 != null ==> |was| == utf8.Length && Written8(utf8[..], len, n, done, was))
  }

  ghost predicate Written8(now: seq<Byte>, len: nat, n: nat, done: seq<int>, was: seq<Byte>)
    requires Scalars(done) && len <= |was|
  {
    n == |Fit8(done, len)| && now == Overwritten(was, 0, Fit8(done, len))
  }

  lemma Written8Fits(now: seq<Byte>, len: nat, n: nat, done: seq<int>, was: seq<Byte>)
    requires Scalars(done) && len <= |was| && Written8(now, len, n, done, was)
    ensures n <= len <= |now| == |was|
  {
    hide Scalars;
  }

  lemma WrittenStep8(now: seq<Byte>, len: nat, n: nat, done: seq<int>, was: seq<Byte>, cp: int)
    requires Scalars(done) && Scalar(cp) && len <= |was| && Written8(now, len, n, done, was)
    ensures Scalars(done + [cp]) && n <= len <= |now| == |was|
    ensures if n + |Put8(cp)| <= len then Written8(Overwritten(now, n, Put8(cp)), len, n + |Put8(cp)|, done + [cp], was)
            else Written8(now, len, n, done + [cp], was)
  {
    hide Put8, Fit8, Bytes, Utf16s, Scalars, Scalar, Overwritten;
    Lengths(cp);
    Step8(done, cp, len);
    Written8Fits(now, len, n, done, was);
    if n + |Put8(cp)| <= len {
      OverwrittenTwice(was, Fit8(done, len), Put8(cp));
    }
  }

  lemma Started8(utf8: array?<Byte>, len: nat, was: seq<Byte>)
    requires utf8 != null ==> len <= utf8.Length && was == utf8[..]
    ensures Progress8(utf8, len, 0, [], was)
  {
  }

  /**
   The sizing pass returns the size of the conversion; the writing pass writes what fits, all of it
   given that size.
   */
  ghost predicate Delivers8(utf8: array?<Byte>, len: nat, n: nat, src: seq<Utf16>)
    requires utf8 != null ==> len <= utf8.Length
    reads utf8
  {
    && (utf8 == null ==> n == |ToUtf8(src)|)
    && (utf8 != null ==> n <= len && Scalars(Points16(src)) && utf8[..n] == Fit8(Points16(src), len))
    && (utf8 != null && |ToUtf8(src)| <= len ==> utf8[..n] == ToUtf8(src))
  }

  lemma Finished8(utf8: array?<Byte>, len: nat, n: nat, src: seq<Utf16>, was: seq<Byte>)
    requires utf8 != null ==> len <= utf8.Length
    requires Progress8(utf8, len, n, Points16(src), was)
    ensures Delivers8(utf8, len, n, src)
    ensures utf8 != null ==> |was| == utf8.Length && forall j :: n <= j < |was| ==> utf8[j] == was[j]
  {
    Converted(src, [], len);
  }

  /** Counts a code point or writes it behind the first `n` places. */
  method Append8(cp: int, utf8: array?<Byte>, len: nat, n: nat, ghost done: seq<int>, ghost was: seq<Byte>)
    returns (m: nat)
    requires Scalar(cp) && (utf8 != null ==> len <= utf8.Length) && Progress8(utf8, len, n, done, was)
    modifies utf8
    ensures Progress8(utf8, len, m, done + [cp], was)
  {
    Lengths(cp);
    if utf8 == null {
      Step8(done, cp, len);
      m := n + Length8(cp);
    } else {
      hide Put8, Length8, Bytes, Fit8, Scalars, Written8, Overwritten;
      WrittenStep8(utf8[..], len, n, done, was, cp);
      var size := EncodeUtf8(cp, utf8, len, n);
      m := n + size;
    }
  }

  /** Sizes (`utf8` null) or converts; returns the size needed, or the number of bytes written. */
  method Utf16ToUtf8(utf16: seq<Utf16>, utf8: array?<Byte>, len: nat) returns (n: nat)
    requires utf8 != null ==> len <= utf8.Length
    modifies utf8
    ensures Delivers8(utf8, len, n, utf16)
    ensures utf8 != null ==> forall j :: n <= j < utf8.Length ==> utf8[j] == old(utf8[j])
  {
    hide *;
    n := 0;
    var i := 0;
    ghost var done: seq<int> := [];
    ScanEnds(utf16, [], done);
    ghost var was := if utf8 == null then [] else utf8[..];
    Started8(utf8, len, was);
    while i < |utf16|
      invariant 0 <= i <= |utf16| && ScannedTo16(utf16, i, done)
      invariant Progress8(utf8, len, n, done, was)
    {
      Scan16Step(utf16, i, done);
      var cp;
      cp, i := DecodeUtf16(utf16, i);
      n := Append8(cp, utf8, len, n, done, was);
      done := done + [cp];
      i := i + 1;
    }
    assert i == |utf16|;
    ScanEnds(utf16, [], done);
    Finished8(utf8, len, n, utf16, was);
  }

  /** Tries the leading patterns in turn; 0 when none matches. */
  method LeadingPattern(leading: Byte) returns (len: nat)
    ensures Lead(leading) == (len, if len == 0 then 0 else leading % Low(len)) && len <= 4
  {
    hide Lead, Low, Matches;
    var matches := false;
    len := 0;
    while !matches && len < 4
      invariant 0 <= len <= 4
      invariant matches ==> len > 0 && Matches(leading, len)
      invariant forall k :: 1 <= k < len ==> !Matches(leading, k)
      invariant !matches && len > 0 ==> !Matches(leading, len)
      decreases 4 - len, !matches
    {
      len := len + 1;
      matches := Matches(leading, len);
    }
    FirstMatch(leading, len, matches);
    if !matches {
      len := 0;
    }
  }

  lemma FirstMatch(leading: Byte, len: nat, matches: bool)
    requires 1 <= len <= 4 && (forall k :: 1 <= k < len ==> !Matches(leading, k)) && Matches(leading, len) == matches
    requires !matches ==> len == 4
    ensures Lead(leading) == if matches then (len, leading % Low(len)) else (0, 0)
  {
    assert len > 1 ==> !Matches(leading, 1);
    assert len > 2 ==> !Matches(leading, 2);
    assert len > 3 ==> !Matches(leading, 3);
  }

  /** decode_utf8: the leading byte, then the continuation bytes one by one. */
  method DecodeUtf8(utf8: seq<Byte>, index: nat) returns (cp: int, last: nat)
    requires index < |utf8|
    ensures (cp, last - index + 1) == Point8(utf8[index..]) && index <= last < |utf8|
  {
    var leading := utf8[index];
    last := index;
    hide Lead, Scan, Point8, IsCont, Bits, Length8, Matches;
    var len := LeadingPattern(leading);
    PointFromScan(utf8[index..]);
    if len == 0 {
      return REPLACEMENT, last;
    }
    var codepoint: nat := leading % Low(len);
    var whole;
    whole, codepoint, last := Continue(utf8, index, len, codepoint);
    if !whole {
      return REPLACEMENT, last;
    }
    if Length8(codepoint) != len {
      return REPLACEMENT, last;
    }
    if codepoint < BMP_END && codepoint / 2048 == 27 {
      return REPLACEMENT, last;
    }
    if codepoint > UNICODE_MAX {
      return REPLACEMENT, last;
    }
    cp := codepoint;
  }

  /** The loop of decode_utf8 over the continuation bytes. */
  method Continue(utf8: seq<Byte>, index: nat, len: nat, bits: nat) returns (whole: bool, codepoint: nat, last: nat)
    requires index < |utf8| && len > 0
    ensures index <= last < |utf8|
    ensures Scan(utf8[index..], 1, len - 1, bits)
         == if whole then Whole(codepoint, last - index + 1) else Broken(last - index + 1)
  {
    hide *;
    codepoint, last := bits, index;
    var i := 0;
    while i < len - 1
      invariant 0 <= i <= len - 1 && last == index + i < |utf8|
      invariant Scan(utf8[index..], 1, len - 1, bits) == Scan(utf8[index..], 1 + i, len - 1 - i, codepoint)
    {
      ScanStep(utf8[index..], 1 + i, len - 1 - i, codepoint);
      if last + 1 >= |utf8| {
        return false, codepoint, last;
      }
      var continuation := utf8[last + 1];
      if !IsCont(continuation) {
        return false, codepoint, last;
      }
      codepoint := codepoint * 64;
      codepoint := codepoint + Bits(continuation);
      last := last + 1;
      i := i + 1;
    }
    ScanEnd(utf8[index..], len, codepoint);
    whole := true;
  }

  lemma ScanStep(s: seq<Byte>, j: nat, need: nat, cp: nat)
    requires 1 <= j <= |s| && need > 0
    ensures Scan(s, j, need, cp)
         == if j == |s| || !IsCont(s[j]) then Broken(j) else Scan(s, j + 1, need - 1, cp * 64 + Bits(s[j]))
  {
  }

  lemma ScanEnd(s: seq<Byte>, j: nat, cp: nat)
    requires 1 <= j <= |s|
    ensures Scan(s, j, 0, cp) == Whole(cp, j)
  {
  }

  /** What decode_utf8 makes of the scan. */
  lemma PointFromScan(s: seq<Byte>)
    requires s != []
    ensures var (len, bits) := Lead(s[0]);
            if len == 0 then Point8(s) == (REPLACEMENT, 1) else
            match Scan(s, 1, len - 1, bits)
            case Broken(used) => Point8(s) == (REPLACEMENT, used)
            case Whole(cp, used) =>
              Point8(s) == (if Length8(cp) != len || (cp < BMP_END && cp / 2048 == 27) || cp > UNICODE_MAX
                            then REPLACEMENT else cp, used)
  {
    hide Scan, Lead;
  }

  /** The value bits below the pattern of a leading byte for `len` bytes. */
  function Low(len: nat): nat {
    if len == 1 then 128 else if len == 2 then 32 else if len == 3 then 16 else 8
  }

  predicate Matches(b: Byte, len: nat) {
    (len == 1 && b < 0x80) || (len == 2 && b / 32 == 6) || (len == 3 && b / 16 == 14) || (len == 4 && b / 8 == 30)
  }

  method EncodeUtf16(codepoint: int, utf16: array<Utf16>, len: nat, index: nat) returns (size: nat)
    requires 0 <= codepoint <= UNICODE_MAX && len <= utf16.Length
    modifies utf16
    ensures size == if index + |Units(codepoint)| > len then 0 else |Units(codepoint)|
    ensures utf16[..] == if size == 0 then old(utf16[..]) else Overwritten(old(utf16[..]), index, Units(codepoint))
  {
    if index >= len {
      return 0;
    }
    if codepoint <= BMP_END {
      utf16[index] := codepoint;
      return 1;
    }
    if index + 1 >= len {
      return 0;
    }
    var cp := codepoint - 0x1_0000;
    var low := 0xDC00 + cp % 1024;
    cp := cp / 1024;
    var high := 0xD800 + cp;
    utf16[index] := high;
    utf16[index + 1] := low;
    size := 2;
  }

  /** The first `n` places of the buffer hold what fits of `done`; without a buffer `n` counts what is needed. */
  ghost predicate Progress16(utf16: array?<Utf16>, len: nat, n: nat, done: seq<int>, was: seq<Utf16>)
    requires utf16 != null ==> len <= utf16.Length
    reads utf16
  {
    && Scalars(done)
    && (utf16 == null ==> n == |Utf16s(done)|)
    && (utf16 != null ==> |was| == utf16.Length && Written16(utf16[..], len, n, done, was))
  }

  ghost predicate Written16(now: seq<Utf16>, len: nat, n: nat, done: seq<int>, was: seq<Utf16>)
    requires Scalars(done) && len <= |was|
  {
    n == |Fit16(done, len)| && now == Overwritten(was, 0, Fit16(done, len))
  }

  lemma Written16Fits(now: seq<Utf16>, len: nat, n: nat, done: seq<int>, was: seq<Utf16>)
    requires Scalars(done) && len <= |was| && Written16(now, len, n, done, was)
    ensures n <= len <= |now| == |was|
  {
    hide Scalars;
  }

  lemma WrittenStep16(now: seq<Utf16>, len: nat, n: nat, done: seq<int>, was: seq<Utf16>, cp: int)
    requires Scalars(done) && Scalar(cp) && len <= |was| && Written16(now, len, n, done, was)
    ensures Scalars(done + [cp]) && n <= len <= |now| == |was|
    ensures if n + |Units(cp)| <= len then
              Written16(Overwritten(now, n, Units(cp)), len, n + |Units(cp)|, done + [cp], was)
            else Written16(now, len, n, done + [cp], was)
  {
    hide Units, Fit16, Bytes, Utf16s, Scalars, Scalar, Overwritten;
    Lengths(cp);
    Step16(done, cp, len);
    Written16Fits(now, len, n, done, was);
    if n + |Units(cp)| <= len {
      OverwrittenTwice(was, Fit16(done, len), Units(cp));
    }
  }

  lemma Started16(utf16: array?<Utf16>, len: nat, was: seq<Utf16>)
    requires utf16 != null ==> len <= utf16.Length && was == utf16[..]
    ensures Progress16(utf16, len, 0, [], was)
  {
  }

  /**
   The sizing pass returns the size of the conversion; the writing pass writes what fits, all of it
   given that size.
   */
  ghost predicate Delivers16(utf16: array?<Utf16>, len: nat, n: nat, src: seq<Byte>)
    requires utf16 != null ==> len <= utf16.Length
    reads utf16
  {
    && (utf16 == null ==> n == |ToUtf16(src)|)
    && (utf16 != null ==> n <= len && Scalars(Points8(src)) && utf16[..n] == Fit16(Points8(src), len))
    && (utf16 != null && |ToUtf16(src)| <= len ==> utf16[..n] == ToUtf16(src))
  }

  lemma Finished16(utf16: array?<Utf16>, len: nat, n: nat, src: seq<Byte>, was: seq<Utf16>)
    requires utf16 != null ==> len <= utf16.Length
    requires Progress16(utf16, len, n, Points8(src), was)
    ensures Delivers16(utf16, len, n, src)
    ensures utf16 != null ==> |was| == utf16.Length && forall j :: n <= j < |was| ==> utf16[j] == was[j]
  {
    Converted([], src, len);
  }

  /** Counts a code point or writes it behind the first `n` places. */
  method Append16(cp: int, utf16: array?<Utf16>, len: nat, n: nat, ghost done: seq<int>, ghost was: seq<Utf16>)
    returns (m: nat)
    requires Scalar(cp) && (utf16 != null ==> len <= utf16.Length) && Progress16(utf16, len, n, done, was)
    modifies utf16
    ensures Progress16(utf16, len, m, done + [cp], was)
  {
    Lengths(cp);
    if utf16 == null {
      Step16(done, cp, len);
      m := n + Length16(cp);
    } else {
      hide Units, Length16, Utf16s, Fit16, Scalars, Written16, Overwritten;
      WrittenStep16(utf16[..], len, n, done, was, cp);
      var size := EncodeUtf16(cp, utf16, len, n);
      m := n + size;
    }
  }

  /** Sizes (`utf16` null) or converts; returns the size needed, or the number of units written. */
  method Utf8ToUtf16(utf8: seq<Byte>, utf16: array?<Utf16>, len: nat) returns (n: nat)
    requires utf16 != null ==> len <= utf16.Length
    modifies utf16
    ensures Delivers16(utf16, len, n, utf8)
    ensures utf16 != null ==> forall j :: n <= j < utf16.Length ==> utf16[j] == old(utf16[j])
  {
    hide *;
    n := 0;
    var i := 0;
    ghost var done: seq<int> := [];
    ScanEnds([], utf8, done);
    ghost var was := if utf16 == null then [] else utf16[..];
    Started16(utf16, len, was);
    while i < |utf8|
      invariant 0 <= i <= |utf8| && ScannedTo8(utf8, i, done)
      invariant Progress16(utf16, len, n, done, was)
    {
      Scan8Step(utf8, i, done);
      var cp;
      cp, i := DecodeUtf8(utf8, i);
      n := Append16(cp, utf16, len, n, done, was);
      done := done + [cp];
      i := i + 1;
    }
    assert i == |utf8|;
    ScanEnds([], utf8, done);
    Finished16(utf16, len, n, utf8, was);
  }
}
