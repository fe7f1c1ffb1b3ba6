/**
 The packet of input events: how events are laid out as little-endian records, and how
 a reader that goes by the kind of each record gets them back.
 */
module InputPacket {
  import opened Basics

  type Int32 = i: int | -0x8000_0000 <= i < 0x8000_0000 witness 0

  /** The bits of a double. */
  type Time = s: seq<Byte> | |s| == 8 witness seq(8, _ => 0)

  /** A C string in a buffer of 257 bytes. */
  type Text = s: seq<Byte> | |s| <= 256 && 0 !in s witness []

  datatype Event =
    | Touch(phase: Int32, x: Int32, y: Int32, id: Word, time: Time)
    | Key(code: Int32, down: Int32, time: Time)
    | Characters(text: Text)

  /** What the game sees of an event. */
  datatype Record =
    | TouchRecord(id: Word, x: Int32, y: Int32, oldX: Int32, oldY: Int32, time: seq<Byte>, phase: Int32)
    | KeyRecord(code: Int32, unicode: Word, action: Word, time: seq<Byte>)
    | TextRecord(action: Word, text: seq<Byte>)

  const ACTION_DOWN: Word := 0
  const ACTION_UP: Word := 1
  const HEADER := 16

  /** Both positions of a touch are the current one; keys carry no character. */
  function View(e: Event): Record {
    match e
    case Touch(phase, x, y, id, time) => TouchRecord(id, x, y, x, y, time, phase)
    case Key(code, down, time) => KeyRecord(code, 0, if down != 0 then ACTION_DOWN else ACTION_UP, time)
    case Characters(text) => TextRecord(0, text)
  }

  function Views(events: seq<Event>): seq<Record> {
    seq(|events|, i requires 0 <= i < |events| => View(events[i]))
  }

  // ----- words as bytes

  function Unsigned(i: Int32): Word {
    i % 0x1_0000_0000
  }

  function SignedOf(w: Word): Int32 {
    if w < 0x8000_0000 then w else w - 0x1_0000_0000
  }

  lemma SignedUnsigned(i: Int32)
    ensures SignedOf(Unsigned(i)) == i
  {
  }

  /** A word written behind `pre` is read back whatever follows. */
  lemma WordAt(pre: seq<Byte>, w: Word, post: seq<Byte>)
    ensures GetWord(pre + PutWord(w) + post, |pre|) == w
  {
    WordBytes(w);
    var s := pre + PutWord(w) + post;
    assert forall k :: 0 <= k < 4 ==> s[|pre| + k] == PutWord(w)[k];
  }

  function RoundUp(n: nat): (r: nat)
    ensures r % 4 == 0 && n <= r < n + 4
  {
    (n + 3) / 4 * 4
  }

  // ----- records

  /** How many bytes the record of an event takes. */
  function Need(e: Event): nat {
    match e
    case Touch(_, _, _, _, _) => 48
    case Key(_, _, _) => 32
    case Characters(text) => 12 + RoundUp(|text|)
  }

  function Encode(e: Event): (s: seq<Byte>)
    ensures |s| == Need(e)
  {
    match e
    case Touch(phase, x, y, id, time) =>
      PutWord(0) + PutWord(id) + PutWord(Unsigned(x)) + PutWord(Unsigned(y))
      + PutWord(Unsigned(x)) + PutWord(Unsigned(y)) + Zeros(4) + time + PutWord(Unsigned(phase)) + Zeros(8)
    case Key(code, down, time) =>
      PutWord(1) + PutWord(Unsigned(code)) + PutWord(0) + PutWord(if down != 0 then ACTION_DOWN else ACTION_UP)
      + time + Zeros(8)
    case Characters(text) =>
      PutWord(6) + PutWord(0) + PutWord(|text|) + text + Zeros(RoundUp(|text|) - |text|)
  }

  /** One record at the start of `s`, and its length. */
  function Parse(s: seq<Byte>): Option<(Record, nat)> {
    if |s| < 4 then None
    else if GetWord(s, 0) == 0 then
      if |s| < 48 then None
      else Some((TouchRecord(GetWord(s, 4), SignedOf(GetWord(s, 8)), SignedOf(GetWord(s, 12)), SignedOf(GetWord(s, 16)),
                             SignedOf(GetWord(s, 20)), s[28..36], SignedOf(GetWord(s, 36))), 48))
    else if GetWord(s, 0) == 1 then
      if |s| < 32 then None
      else Some((KeyRecord(SignedOf(GetWord(s, 4)), GetWord(s, 8), GetWord(s, 12), s[16..24]), 32))
    else if GetWord(s, 0) == 6 then
      if |s| < 12 || |s| < 12 + RoundUp(GetWord(s, 8)) then None
      else Some((TextRecord(GetWord(s, 4), s[12..12 + GetWord(s, 8)]), 12 + RoundUp(GetWord(s, 8))))
    else None
  }

  function ParseAll(s: seq<Byte>, n: nat): Option<seq<Record>> {
    if n == 0 then Some([])
    else
      match Parse(s)
      case None => None
      case Some((record, used)) =>
        if |s| < used then None
        else
          match ParseAll(s[used..], n - 1)
          case None => None
          case Some(rest) => Some([record] + rest)
  }

  function ParsePacket(s: seq<Byte>): Option<seq<Record>> {
    if |s| < HEADER then None else ParseAll(s[HEADER..], GetWord(s, 0))
  }

  function EncodeAll(events: seq<Event>): seq<Byte> {
    if events == [] then [] else Encode(events[0]) + EncodeAll(events[1..])
  }

  function Packet(events: seq<Event>): seq<Byte>
    requires |events| < 0x1_0000_0000
  {
    PutWord(|events|) + Zeros(12) + EncodeAll(events)
  }

  /** A field at offset `at` of a record that starts with `pre`. */
  lemma ReadWord(s: seq<Byte>, pre: seq<Byte>, w: Word, post: seq<Byte>, at: nat)
    requires s == pre + PutWord(w) + post && at == |pre|
    ensures at + 4 <= |s| && GetWord(s, at) == w
  {
    WordAt(pre, w, post);
  }

  lemma ParseTouch(e: Event, rest: seq<Byte>)
    requires e.Touch?
    ensures Parse(Encode(e) + rest) == Some((View(e), Need(e)))
  {
    TouchFields(e, rest);
    hide PutWord, GetWord, SignedOf, Unsigned, Encode;
    SignedUnsigned(e.x);
    SignedUnsigned(e.y);
    SignedUnsigned(e.phase);
  }

  lemma TouchFields(e: Event, rest: seq<Byte>)
    requires e.Touch?
    ensures var s := Encode(e) + rest;
            && GetWord(s, 0) == 0 && GetWord(s, 4) == e.id
            && GetWord(s, 8) == GetWord(s, 16) == Unsigned(e.x) && GetWord(s, 12) == GetWord(s, 20) == Unsigned(e.y)
            && s[28..36] == e.time && GetWord(s, 36) == Unsigned(e.phase)
  {
    hide PutWord, GetWord, Unsigned;
    var s := Encode(e) + rest;
    var x, y := Unsigned(e.x), Unsigned(e.y);
    var head := PutWord(0) + PutWord(e.id) + PutWord(x) + PutWord(y) + PutWord(x) + PutWord(y);
    var post := PutWord(Unsigned(e.phase)) + Zeros(8) + rest;
    assert s == head + (Zeros(4) + e.time + post);
    SixWords(0, e.id, x, y, x, y, Zeros(4) + e.time + post);
    assert s == (head + Zeros(4) + e.time) + PutWord(Unsigned(e.phase)) + (Zeros(8) + rest);
    ReadWord(s, head + Zeros(4) + e.time, Unsigned(e.phase), Zeros(8) + rest, 36);
    assert s[28..36] == e.time;
  }

  lemma SixWords(a: Word, b: Word, c: Word, d: Word, e: Word, f: Word, rest: seq<Byte>)
    ensures var s := PutWord(a) + PutWord(b) + PutWord(c) + PutWord(d) + PutWord(e) + PutWord(f) + rest;
            && GetWord(s, 0) == a && GetWord(s, 4) == b && GetWord(s, 8) == c
            && GetWord(s, 12) == d && GetWord(s, 16) == e && GetWord(s, 20) == f
  {
    hide PutWord, GetWord;
    var s := PutWord(a) + PutWord(b) + PutWord(c) + PutWord(d) + PutWord(e) + PutWord(f) + rest;
    ReadWord(s, [], a, s[4..], 0);
    ReadWord(s, PutWord(a), b, s[8..], 4);
    ReadWord(s, PutWord(a) + PutWord(b), c, s[12..], 8);
    ReadWord(s, PutWord(a) + PutWord(b) + PutWord(c), d, s[16..], 12);
    ReadWord(s, PutWord(a) + PutWord(b) + PutWord(c) + PutWord(d), e, s[20..], 16);
    ReadWord(s, PutWord(a) + PutWord(b) + PutWord(c) + PutWord(d) + PutWord(e), f, rest, 20);
  }

  /** The 48 bytes of a touch record: kind 0, id, both positions, time and phase; nothing else is set. */
  lemma TouchBytes(e: Event)
    requires e.Touch?
    ensures var s := Encode(e);
            && |s| == 48 && GetWord(s, 0) == 0 && GetWord(s, 4) == e.id
            && GetWord(s, 8) == GetWord(s, 16) == e.x % 0x1_0000_0000
            && GetWord(s, 12) == GetWord(s, 20) == e.y % 0x1_0000_0000
            && s[24..28] == [0, 0, 0, 0] && s[28..36] == e.time && GetWord(s, 36) == e.phase % 0x1_0000_0000
            && s[40..] == [0, 0, 0, 0, 0, 0, 0, 0]
  {
    TouchFields(e, []);
    hide PutWord, GetWord;
    assert Encode(e) + [] == Encode(e);
  }

  /** The 32 bytes of a key record: kind 1, code, no character, 0 for down and 1 for up, and time. */
  lemma KeyBytes(e: Event)
    requires e.Key?
    ensures var s := Encode(e);
            && |s| == 32 && GetWord(s, 0) == 1 && GetWord(s, 4) == e.code % 0x1_0000_0000 && GetWord(s, 8) == 0
            && GetWord(s, 12) == (if e.down != 0 then 0 else 1) && s[16..24] == e.time
            && s[24..] == [0, 0, 0, 0, 0, 0, 0, 0]
  {
    hide PutWord, GetWord;
    KeyFields(e, []);
    assert Encode(e) + [] == Encode(e);
  }

  lemma KeyFields(e: Event, rest: seq<Byte>)
    requires e.Key?
    ensures var s := Encode(e) + rest;
            && GetWord(s, 0) == 1 && GetWord(s, 4) == Unsigned(e.code) && GetWord(s, 8) == 0
            && GetWord(s, 12) == (if e.down != 0 then 0 else 1) && s[16..24] == e.time
  {
    hide PutWord, GetWord, Unsigned;
    var s := Encode(e) + rest;
    var w0, w4, w8 := PutWord(1), PutWord(Unsigned(e.code)), PutWord(0);
    ReadWord(s, [], 1, s[4..], 0);
    ReadWord(s, w0, Unsigned(e.code), s[8..], 4);
    ReadWord(s, w0 + w4, 0, s[12..], 8);
    ReadWord(s, w0 + w4 + w8, if e.down != 0 then 0 else 1, s[16..], 12);
    assert s[16..24] == e.time;
  }

  /** A text record: kind 6, action 0, the number of bytes, the bytes, and zeros up to a multiple of four. */
  lemma TextBytes(e: Event)
    requires e.Characters?
    ensures var s, n := Encode(e), |e.text|;
            && |s| % 4 == 0 && 12 + n <= |s| < 16 + n && GetWord(s, 0) == 6 && GetWord(s, 4) == 0 && GetWord(s, 8) == n
            && s[12..12 + n] == e.text && forall k :: 12 + n <= k < |s| ==> s[k] == 0
  {
    TextFields(e, []);
    hide PutWord, GetWord, RoundUp;
    assert Encode(e) + [] == Encode(e);
  }

  lemma TextFields(e: Event, rest: seq<Byte>)
    requires e.Characters?
    ensures var s := Encode(e) + rest;
            && GetWord(s, 0) == 6 && GetWord(s, 4) == 0 && GetWord(s, 8) == |e.text| && s[12..12 + |e.text|] == e.text
  {
    hide PutWord, GetWord, RoundUp;
    var s := Encode(e) + rest;
    ReadWord(s, [], 6, s[4..], 0);
    ReadWord(s, PutWord(6), 0, s[8..], 4);
    ReadWord(s, PutWord(6) + PutWord(0), |e.text|, s[12..], 8);
    assert s[12..12 + |e.text|] == e.text;
  }

  lemma EncodeAllFirst(e: Event, events: seq<Event>)
    ensures EncodeAll([e] + events) == Encode(e) + EncodeAll(events)
  {
    hide Encode;
    assert ([e] + events)[1..] == events;
  }

  lemma Associative<T>(a: seq<T>, b: seq<T>, c: seq<T>)
    ensures a + (b + c) == a + b + c
  {
  }

  lemma EncodeAllStep(first: Event, tail: seq<Event>, e: Event)
    requires EncodeAll(tail + [e]) == EncodeAll(tail) + Encode(e)
    ensures EncodeAll([first] + tail + [e]) == EncodeAll([first] + tail) + Encode(e)
  {
    hide EncodeAll, Encode, Need;
    EncodeAllFirst(first, tail + [e]);
    EncodeAllFirst(first, tail);
    Associative([first], tail, [e]);
    Associative(Encode(first), EncodeAll(tail), Encode(e));
  }

  lemma EncodeAllOne(e: Event)
    ensures EncodeAll([e]) == EncodeAll([]) + Encode(e)
  {
    hide Encode;
    assert [e][1..] == [];
  }

  lemma {:induction false} EncodeAllAppend(events: seq<Event>, e: Event)
    ensures EncodeAll(events + [e]) == EncodeAll(events) + Encode(e)
  {
    hide EncodeAll, Encode, Need;
    if events == [] {
      EncodeAllOne(e);
      assert events + [e] == [e];
    } else {
      EncodeAllAppend(events[1..], e);
      EncodeAllStep(events[0], events[1..], e);
      assert events == [events[0]] + events[1..];
    }
  }

  lemma BehindCount(n: Word, body: seq<Byte>)
    ensures var s := PutWord(n) + Zeros(12) + body;
            && |s| == 16 + |body| && GetWord(s, 0) == n && s[4..] == Zeros(12) + body
            && forall k :: 4 <= k < 16 ==> s[k] == 0
  {
    hide PutWord, GetWord;
    var s := PutWord(n) + Zeros(12) + body;
    ReadWord(s, [], n, s[4..], 0);
  }

  /** The packet: the number of events, twelve zero bytes, and the records one behind the other. */
  lemma PacketBytes(events: seq<Event>, e: Event)
    requires |events| + 1 < 0x1_0000_0000
    ensures |Packet([])| == 16 && |Packet(events)| >= 16
    ensures GetWord(Packet(events), 0) == |events| && forall k :: 4 <= k < 16 ==> Packet(events)[k] == 0
    ensures Packet(events + [e])[4..] == Packet(events)[4..] + Encode(e)
  {
    hide *;
    EncodeAllAppend(events, e);
    EncodeAllEmpty();
    PacketStarts(events);
    PacketStarts(events + [e]);
    PacketStarts([]);
    Associative(Zeros(12), EncodeAll(events), Encode(e));
  }

  lemma PacketStarts(events: seq<Event>)
    requires |events| < 0x1_0000_0000
    ensures var s := Packet(events);
            && |s| == 16 + |EncodeAll(events)| && GetWord(s, 0) == |events| && s[4..] == Zeros(12) + EncodeAll(events)
            && forall k :: 4 <= k < 16 ==> s[k] == 0
  {
    BehindCount(|events|, EncodeAll(events));
    hide PutWord, GetWord, EncodeAll;
  }

  lemma EncodeAllEmpty()
    ensures EncodeAll([]) == []
  {
  }

  lemma ParseKey(e: Event, rest: seq<Byte>)
    requires e.Key?
    ensures Parse(Encode(e) + rest) == Some((View(e), Need(e)))
  {
    KeyFields(e, rest);
    hide PutWord, GetWord, SignedOf, Unsigned;
    SignedUnsigned(e.code);
  }

  lemma ParseText(e: Event, rest: seq<Byte>)
    requires e.Characters?
    ensures Parse(Encode(e) + rest) == Some((View(e), Need(e)))
  {
    TextFields(e, rest);
    hide PutWord, GetWord, RoundUp;
  }

  lemma ParseEncoded(e: Event, rest: seq<Byte>)
    ensures Parse(Encode(e) + rest) == Some((View(e), Need(e)))
  {
    match e
    case Touch(_, _, _, _, _) => ParseTouch(e, rest);
    case Key(_, _, _) => ParseKey(e, rest);
    case Characters(_) => ParseText(e, rest);
  }

  lemma {:induction false} ParseAllEncoded(events: seq<Event>, rest: seq<Byte>)
    ensures ParseAll(EncodeAll(events) + rest, |events|) == Some(Views(events))
  {
    hide Parse, Encode, View;
    if events != [] {
      var tail := EncodeAll(events[1..]) + rest;
      var s := EncodeAll(events) + rest;
      assert s == Encode(events[0]) + tail;
      ParseEncoded(events[0], tail);
      assert s[Need(events[0])..] == tail;
      ParseAllEncoded(events[1..], rest);
      assert Views(events) == [View(events[0])] + Views(events[1..]);
    } else {
      assert Views(events) == [];
    }
  }

  /** A reader gets back exactly the events of the packet, whatever lies behind it in the buffer. */
  lemma PacketParses(events: seq<Event>, rest: seq<Byte>)
    requires |events| < 0x1_0000_0000
    ensures ParsePacket(Packet(events) + rest) == Some(Views(events))
  {
    hide PutWord, GetWord, ParseAll, EncodeAll, Views;
    var s := Packet(events) + rest;
    ReadWord(s, [], |events|, s[4..], 0);
    assert s[HEADER..] == EncodeAll(events) + rest;
    ParseAllEncoded(events, rest);
  }

  // ----- writing into a buffer

  /** `done` has been written at `at`; the `left` bytes behind it are zero, and all else is as in `was`. */
  ghost predicate Open(s: seq<Byte>, was: seq<Byte>, at: nat, done: seq<Byte>, left: nat) {
    && at + |done| + left <= |was|
    && s == was[..at] + done + Zeros(left) + was[at + |done| + left..]
  }

  /** memset. */
  method Clear(buffer: array<Byte>, at: nat, n: nat)
    requires at + n <= buffer.Length
    modifies buffer
    ensures Open(buffer[..], old(buffer[..]), at, [], n)
  {
    var i := at;
    while i < at + n
      invariant at <= i <= at + n
      invariant forall k :: at <= k < i ==> buffer[k] == 0
      invariant forall k :: 0 <= k < at || i <= k < buffer.Length ==> buffer[k] == old(buffer[k])
    {
      buffer[i] := 0;
      i := i + 1;
    }
    assert i == at + n;
  }

  lemma OpenSkip(s: seq<Byte>, was: seq<Byte>, at: nat, done: seq<Byte>, left: nat, n: nat)
    requires Open(s, was, at, done, left) && n <= left
    ensures Open(s, was, at, done + Zeros(n), left - n)
  {
    assert Zeros(n) + Zeros(left - n) == Zeros(left);
  }

  /** memcpy to the first of the bytes left. */
  method PutBytes(buffer: array<Byte>, ghost was: seq<Byte>, at: nat, ghost done: seq<Byte>, ghost left: nat, to: nat,
                  bytes: seq<Byte>)
    requires Open(buffer[..], was, at, done, left) && |bytes| <= left && to == at + |done|
    modifies buffer
    ensures Open(buffer[..], was, at, done + bytes, left - |bytes|)
  {
    var i := 0;
    ghost var s := buffer[..];
    while i < |bytes|
      invariant 0 <= i <= |bytes|
      invariant forall k :: 0 <= k < i ==> buffer[to + k] == bytes[k]
      invariant forall k :: 0 <= k < to || to + i <= k < buffer.Length ==> buffer[k] == s[k]
    {
      buffer[to + i] := bytes[i];
      i := i + 1;
    }
    assert i == |bytes|;
    OpenPut(s, buffer[..], was, at, done, left, bytes);
  }

  lemma OpenPut(s: seq<Byte>, s': seq<Byte>, was: seq<Byte>, at: nat, done: seq<Byte>, left: nat, bytes: seq<Byte>)
    requires Open(s, was, at, done, left) && |bytes| <= left && |s'| == |s|
    requires var to := at + |done|;
             && (forall k :: 0 <= k < |bytes| ==> s'[to + k] == bytes[k])
             && (forall k :: 0 <= k < to || to + |bytes| <= k < |s| ==> s'[k] == s[k])
    ensures Open(s', was, at, done + bytes, left - |bytes|)
  {
    var to := at + |done|;
    var want := was[..at] + (done + bytes) + Zeros(left - |bytes|) + was[at + |done| + left..];
    assert |want| == |s'|;
    forall k | 0 <= k < |s'|
      ensures s'[k] == want[k]
    {
      if to <= k < to + |bytes| {
        assert s'[to + (k - to)] == bytes[k - to];
      }
    }
  }

  method PutU32(buffer: array<Byte>, ghost was: seq<Byte>, at: nat, ghost done: seq<Byte>, ghost left: nat, to: nat,
                w: Word)
    requires Open(buffer[..], was, at, done, left) && 4 <= left && to == at + |done|
    modifies buffer
    ensures Open(buffer[..], was, at, done + PutWord(w), left - 4)
  {
    ghost var s := buffer[..];
    buffer[to] := w % 256;
    buffer[to + 1] := w / 0x100 % 256;
    buffer[to + 2] := w / 0x1_0000 % 256;
    buffer[to + 3] := w / 0x100_0000 % 256;
    OpenPut(s, buffer[..], was, at, done, left, PutWord(w));
  }

  method WriteTouch(buffer: array<Byte>, at: nat, e: Event, ghost was: seq<Byte>)
    requires e.Touch? && Open(buffer[..], was, at, [], 48)
    modifies buffer
    ensures Open(buffer[..], was, at, Encode(e), 0)
  {
    ghost var w0, w4, w8, w12 := PutWord(0), PutWord(e.id), PutWord(Unsigned(e.x)), PutWord(Unsigned(e.y));
    ghost var w36 := PutWord(Unsigned(e.phase));
    ghost var d := w0 + w4 + w8 + w12 + w8 + w12;
    assert Encode(e) == d + Zeros(4) + e.time + w36 + Zeros(8);
    hide Open, PutWord, Unsigned, Encode, Zeros;
    assert [] + w0 == w0;
    PutU32(buffer, was, at, [], 48, at, 0);
    PutU32(buffer, was, at, w0, 44, at + 4, e.id);
    PutU32(buffer, was, at, w0 + w4, 40, at + 8, Unsigned(e.x));
    PutU32(buffer, was, at, w0 + w4 + w8, 36, at + 12, Unsigned(e.y));
    PutU32(buffer, was, at, w0 + w4 + w8 + w12, 32, at + 16, Unsigned(e.x));
    PutU32(buffer, was, at, w0 + w4 + w8 + w12 + w8, 28, at + 20, Unsigned(e.y));
    OpenSkip(buffer[..], was, at, d, 24, 4);
    PutBytes(buffer, was, at, d + Zeros(4), 20, at + 28, e.time);
    PutU32(buffer, was, at, d + Zeros(4) + e.time, 12, at + 36, Unsigned(e.phase));
    OpenSkip(buffer[..], was, at, d + Zeros(4) + e.time + w36, 8, 8);
  }

  method WriteKey(buffer: array<Byte>, at: nat, e: Event, ghost was: seq<Byte>)
    requires e.Key? && Open(buffer[..], was, at, [], 32)
    modifies buffer
    ensures Open(buffer[..], was, at, Encode(e), 0)
  {
    ghost var w0, w4, w8 := PutWord(1), PutWord(Unsigned(e.code)), PutWord(0);
    var action := if e.down != 0 then 0 else 1;
    ghost var w12 := PutWord(action);
    assert Encode(e) == w0 + w4 + w8 + w12 + e.time + Zeros(8);
    hide Open, PutWord, Unsigned, Encode, Zeros;
    assert [] + w0 == w0;
    PutU32(buffer, was, at, [], 32, at, 1);
    PutU32(buffer, was, at, w0, 28, at + 4, Unsigned(e.code));
    PutU32(buffer, was, at, w0 + w4, 24, at + 8, 0);
    PutU32(buffer, was, at, w0 + w4 + w8, 20, at + 12, action);
    PutBytes(buffer, was, at, w0 + w4 + w8 + w12, 16, at + 16, e.time);
    OpenSkip(buffer[..], was, at, w0 + w4 + w8 + w12 + e.time, 8, 8);
  }

  method WriteText(buffer: array<Byte>, at: nat, e: Event, ghost was: seq<Byte>)
    requires e.Characters? && Open(buffer[..], was, at, [], Need(e))
    modifies buffer
    ensures Open(buffer[..], was, at, Encode(e), 0)
  {
    ghost var w0, w8, n := PutWord(6), PutWord(|e.text|), Need(e);
    ghost var d := w0 + Zeros(4) + w8;
    ghost var pad := RoundUp(|e.text|) - |e.text|;
    TextLayout(e);
    assert Encode(e) == d + e.text + Zeros(pad);
    assert n == 12 + |e.text| + pad;
    hide Open, PutWord, Encode, Zeros, Need, RoundUp;
    assert [] + w0 == w0;
    PutU32(buffer, was, at, [], n, at, 6);
    OpenSkip(buffer[..], was, at, w0, n - 4, 4);
    PutU32(buffer, was, at, w0 + Zeros(4), n - 8, at + 8, |e.text|);
    PutBytes(buffer, was, at, d, n - 12, at + 12, e.text);
    OpenSkip(buffer[..], was, at, d + e.text, pad, pad);
  }

  /** The action of a text record is 0, so it is never written. */
  lemma TextLayout(e: Event)
    requires e.Characters?
    ensures PutWord(0) == Zeros(4)
    ensures Encode(e) == PutWord(6) + Zeros(4) + PutWord(|e.text|) + e.text + Zeros(RoundUp(|e.text|) - |e.text|)
  {
    assert PutWord(0) == Zeros(4);
  }

  /** One record into cleared space. */
  method WriteEvent(buffer: array<Byte>, at: nat, e: Event)
    requires at + Need(e) <= buffer.Length
    modifies buffer
    ensures buffer[..] == old(buffer[..at]) + Encode(e) + old(buffer[at + Need(e)..])
  {
    hide *;
    ghost var was := buffer[..];
    assert old(buffer[..at]) == was[..at] && old(buffer[at + Need(e)..]) == was[at + Need(e)..];
    Clear(buffer, at, Need(e));
    WriteRecord(buffer, at, e, was);
    OpenDone(buffer[..], was, at, Encode(e));
  }

  method WriteRecord(buffer: array<Byte>, at: nat, e: Event, ghost was: seq<Byte>)
    requires Open(buffer[..], was, at, [], Need(e))
    modifies buffer
    ensures Open(buffer[..], was, at, Encode(e), 0)
  {
    hide Encode, Open;
    match e {
      case Touch(_, _, _, _, _) => WriteTouch(buffer, at, e, was);
      case Key(_, _, _) => WriteKey(buffer, at, e, was);
      case Characters(_) => WriteText(buffer, at, e, was);
    }
  }

  lemma OpenDone(s: seq<Byte>, was: seq<Byte>, at: nat, done: seq<Byte>)
    requires Open(s, was, at, done, 0)
    ensures at + |done| <= |was| && s == was[..at] + done + was[at + |done|..]
  {
    assert Zeros(0) == [];
  }
}
