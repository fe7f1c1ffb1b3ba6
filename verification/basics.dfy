/** Types and facts that several components share. */
module Basics {

  type Byte = b: int | 0 <= b < 0x100 witness 0
  type Word = w: int | 0 <= w < 0x1_0000_0000 witness 0

  datatype Option<T> = None | Some(value: T)

  /** memset to zero. */
  function Zeros(n: nat): (z: seq<Byte>)
    ensures |z| == n
  {
    seq(n, _ => 0)
  }

  /** A sequence with one element replaced. */
  function Replaced<T>(s: seq<T>, i: nat, x: T): seq<T>
    requires i < |s|
  {
    s[i := x]
  }

  /** A buffer with some items written from position `at`. */
  function Overwritten<T>(buffer: seq<T>, at: nat, items: seq<T>): (r: seq<T>)
    requires at + |items| <= |buffer|
    ensures |r| == |buffer|
  {
    buffer[..at] + items + buffer[at + |items|..]
  }

  lemma OverwrittenAt<T>(now: seq<T>, buffer: seq<T>, at: nat, items: seq<T>)
    requires |now| == |buffer| && at + |items| <= |buffer|
    requires forall j :: 0 <= j < |items| ==> now[at + j] == items[j]
    requires forall j :: 0 <= j < at || at + |items| <= j < |buffer| ==> now[j] == buffer[j]
    ensures now == Overwritten(buffer, at, items)
  {
    assert now == now[..at] + now[at..at + |items|] + now[at + |items|..];
  }

  /** Two writes one behind the other are one write. */
  lemma OverwrittenTwice<T>(buffer: seq<T>, a: seq<T>, b: seq<T>)
    requires |a| + |b| <= |buffer|
    ensures Overwritten(Overwritten(buffer, 0, a), |a|, b) == Overwritten(buffer, 0, a + b)
  {
  }

  // ----- arithmetic in 32 bits

  function Wrap(x: int): Word {
    x % 0x1_0000_0000
  }

  lemma {:induction false} WrapMultiple(x: int, q: int)
    ensures Wrap(x + q * 0x1_0000_0000) == Wrap(x)
    decreases if q >= 0 then q else -q
  {
    if q > 0 {
      WrapMultiple(x, q - 1);
    } else if q < 0 {
      WrapMultiple(x, q + 1);
    }
  }

  lemma WrapAdd(a: int, b: int)
    ensures Wrap(Wrap(a) + b) == Wrap(a + b)
  {
    var q := a / 0x1_0000_0000;
    assert Wrap(a) == a - q * 0x1_0000_0000;
    WrapMultiple(Wrap(a) + b, q);
  }

  // ----- little-endian words

  function PutWord(w: Word): (s: seq<Byte>)
    ensures |s| == 4
  {
    [w % 256, w / 0x100 % 256, w / 0x1_0000 % 256, w / 0x100_0000 % 256]
  }

  function GetWord(s: seq<Byte>, at: nat): Word
    requires at + 4 <= |s|
  {
    var b0: int, b1: int, b2: int, b3: int := s[at], s[at + 1], s[at + 2], s[at + 3];
    b0 + 0x100 * b1 + 0x1_0000 * b2 + 0x100_0000 * b3
  }

  lemma Digit(q: nat, r: nat)
    requires r < 256
    ensures (q * 256 + r) / 256 == q && (q * 256 + r) % 256 == r
  {
  }

  /** The lowest byte comes first. */
  lemma KnownWord()
    ensures PutWord(0x0403_0201) == [1, 2, 3, 4]
    ensures GetWord([1, 2, 3, 4], 0) == 0x0403_0201
  {
    hide GetWord;
    WordBytes(0x0403_0201);
  }

  lemma DivideTwice(w: nat)
    ensures w / 0x1_0000 == w / 0x100 / 0x100 && w / 0x100_0000 == w / 0x1_0000 / 0x100
  {
  }

  lemma WordBytes(w: Word)
    ensures GetWord(PutWord(w), 0) == w
  {
    DivideTwice(w);
  }

  lemma BytesWord(s: seq<Byte>)
    requires |s| == 4
    ensures PutWord(GetWord(s, 0)) == s
  {
    var b0: nat, b1: nat, b2: nat, b3: nat := s[0], s[1], s[2], s[3];
    var w := GetWord(s, 0);
    var q1, q2 := b1 + 0x100 * b2 + 0x1_0000 * b3, b2 + 0x100 * b3;
    Digit(q1, b0);
    Digit(q2, b1);
    Digit(b3, b2);
    DivideTwice(w);
    assert w == q1 * 256 + b0 && q1 == q2 * 256 + b1 && q2 == b3 * 256 + b2;
  }

  // ----- memcpy

  /** Copies items to addresses that are `step` apart. */
  function CopyTo<T>(mem: map<int, T>, at: int, step: nat, items: seq<T>): map<int, T>
    decreases |items|
  {
    if items == [] then mem else CopyTo(mem[at := items[0]], at + step, step, items[1..])
  }

  /** What is read back after the copy of bytes. */
  lemma {:induction false} CopyReads<T>(mem: map<int, T>, at: int, items: seq<T>, a: int)
    ensures var mem' := CopyTo(mem, at, 1, items);
            if at <= a < at + |items| then a in mem' && mem'[a] == items[a - at]
            else (a in mem' <==> a in mem) && (a in mem ==> mem'[a] == mem[a])
    decreases |items|
  {
    if items != [] {
      CopyReads(mem[at := items[0]], at + 1, items[1..], a);
    }
  }

  /** What is read back after the copy of words. */
  lemma {:induction false} CopyReads4<T>(mem: map<int, T>, at: int, items: seq<T>, a: int)
    ensures var mem' := CopyTo(mem, at, 4, items);
            var k := (a - at) / 4;
            if at <= a && (a - at) % 4 == 0 && k < |items| then a in mem' && mem'[a] == items[k]
            else (a in mem' <==> a in mem) && (a in mem ==> mem'[a] == mem[a])
    decreases |items|
  {
    if items != [] {
      CopyReads4(mem[at := items[0]], at + 4, items[1..], a);
    }
  }
}
