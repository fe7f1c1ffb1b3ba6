/**
 Fake Java strings: both representations are built before a string is published,
 and the getters only read them. Allocation results are parameters, and every block
 taken for a string that fails is given back.
 */
module JavaStrings {
  import opened Basics
  import opened Mutf8
  import opened JniObjects
  import ObjectGraph

  type Obj = ObjectGraph.Obj

  const INT_MAX := 0x7FFF_FFFF

  /** What malloc and realloc answer, in the order in which they may be called. */
  datatype Memory = Memory(header: bool, first: Grant, second: Grant, resize: bool, record: bool)

  /** An array takes two blocks: its elements and its header. */
  datatype Grant = Grant(elements: bool, header: bool) {
    predicate Both() {
      elements && header
    }
  }

  /** The C heap, as a count of the blocks that were handed out and not freed. */
  class Heap {
    var blocks: nat

    constructor ()
      ensures blocks == 0
    {
      blocks := 0;
    }

    method Malloc(granted: bool) returns (ok: bool)
      modifies this
      ensures ok == granted && blocks == old(blocks) + if ok then 1 else 0
    {
      if granted {
        blocks := blocks + 1;
      }
      ok := granted;
    }

    method Free(n: nat)
      requires n <= blocks
      modifies this
      ensures blocks == old(blocks) - n
    {
      blocks := blocks - n;
    }

    /** jda_alloc without its array: both blocks or none. */
    method AllocArray(grant: Grant) returns (ok: bool)
      modifies this
      ensures ok == grant.Both() && blocks == old(blocks) + if ok then 2 else 0
    {
      ok := Malloc(grant.elements);
      if !ok {
        return;
      }
      ok := Malloc(grant.header);
      if !ok {
        Free(1);
      }
    }
  }

  /** Characters before the first NUL, as strlen sees them. */
  function CString(s: seq<Byte>): seq<Byte> {
    if s == [] || s[0] == 0 then [] else [s[0]] + CString(s[1..])
  }

  lemma {:induction false} CStringOf(s: seq<Byte>, rest: seq<Byte>)
    requires 0 !in s
    ensures CString(s + [0] + rest) == s
  {
    var t := s + [0] + rest;
    if s != [] {
      CStringOf(s[1..], rest);
      assert t[1..] == s[1..] + [0] + rest;
    }
  }

  class JavaString {
    var utf16: array?<Utf16>
    var utf8: array?<Byte>

    constructor ()
      ensures utf16 == null && utf8 == null
    {
      utf16, utf8 := null, null;
    }

    /** Both forms present, the bytes being the encoding of the units plus one NUL. */
    ghost predicate Complete()
      reads this, utf16, utf8
    {
      && utf16 != null && utf8 != null
      && utf16.Length <= 0x7FFF_FFFF && utf8.Length <= 0x7FFF_FFFF
      && utf8[..] == Encode(utf16[..]) + [0]
    }

    /** Blocks behind the two arrays. */
    function ArrayBlocks(): nat
      reads this
    {
      (if utf16 != null then 2 else 0) + (if utf8 != null then 2 else 0)
    }

    /** Builds or rebuilds the bytes from the units. */
    method Utf16ToUtf8(heap: Heap, alloc: Grant, resize: bool) returns (ok: bool)
      modifies this`utf8, utf8, heap
      ensures utf16 != null ==> utf16[..] == old(utf16[..])
      ensures ok ==> utf16 != null && utf8 != null && utf8[..] == Encode(utf16[..]) + [0] && utf8.Length <= 0x7FFF_FFFF
      ensures ok ==> utf8 == old(utf8) || fresh(utf8)
      ensures !ok ==> utf8 == old(utf8)
      ensures ok <==> utf16 != null && |Encode(utf16[..])| < 0x7FFF_FFFF
                      && if old(utf8) == null then alloc.Both()
                         else resize || old(utf8.Length) == |Encode(utf16[..])| + 1
      ensures heap.blocks - old(heap.blocks) == ArrayBlocks() - old(ArrayBlocks())
    {
      hide Encode;
      if utf16 == null {
        return false;
      }
      var units := utf16[..];
      var bytes := EncodeInto(units, null);
      if bytes >= INT_MAX {
        return false;
      }
      if utf8 == null {
        ok := heap.AllocArray(alloc);
        if !ok {
          return;
        }
        utf8 := new Byte[bytes + 1](_ => 0);
      } else if utf8.Length != bytes + 1 {
        if !resize {
          return false;
        }
        var kept := utf8;
        utf8 := new Byte[bytes + 1](i requires 0 <= i reads kept => if i < kept.Length then kept[i] else 0);
      }
      var n := EncodeInto(units, utf8);
      utf8[bytes] := 0;
      assert utf8[..] == utf8[..bytes] + [0];
      ok := true;
    }

    /** Builds or rebuilds the units from the bytes, the terminator left out. */
    method Utf8ToUtf16(heap: Heap, alloc: Grant, resize: bool) returns (ok: bool)
      requires utf8 != null ==> utf8.Length <= INT_MAX
      modifies this`utf16, utf16, heap
      ensures utf8 != null ==> utf8[..] == old(utf8[..])
      ensures ok ==> utf8 != null && 1 <= utf8.Length && utf16 != null && (utf16 == old(utf16) || fresh(utf16))
      ensures ok ==> utf16[..] == Decode(utf8[..utf8.Length - 1]) && utf16.Length <= 0x7FFF_FFFF
      ensures !ok ==> utf16 == old(utf16)
      ensures ok <==> utf8 != null && 1 <= utf8.Length
                      && if old(utf16) == null then alloc.Both()
                         else resize || old(utf16.Length) == |Decode(utf8[..utf8.Length - 1])|
      ensures heap.blocks - old(heap.blocks) == ArrayBlocks() - old(ArrayBlocks())
    {
      hide Decode;
      if utf8 == null || utf8.Length < 1 {
        return false;
      }
      var input := utf8[..utf8.Length - 1];
      var units := DecodeInto(input, null);
      if units > INT_MAX {
        return false;
      }
      if utf16 == null {
        ok := heap.AllocArray(alloc);
        if !ok {
          return;
        }
        utf16 := new Utf16[units](_ => 0);
      } else if utf16.Length != units {
        if !resize {
          return false;
        }
        var kept := utf16;
        utf16 := new Utf16[units](i requires 0 <= i reads kept => if i < kept.Length then kept[i] else 0);
      }
      var n := DecodeInto(input, utf16);
      assert utf16[..] == utf16[..n];
      ok := true;
    }
  }

  /** A complete string is tracked, or all its blocks are freed. */
  method Publish(heap: Heap, jni: JniHeap, str: JavaString, addr: Obj, record: bool) returns (r: JavaString?)
    requires jni.Valid() && jni.Fresh(addr) && str.Complete() && 5 <= heap.blocks
    modifies heap, jni
    ensures jni.Valid() && str.Complete()
    ensures record ==> r == str && heap.blocks == old(heap.blocks) && Tracked(old(jni.refs), jni.refs, addr)
    ensures record ==> jni.locals == old(jni.locals) + multiset{addr}
    ensures !record ==> r == null && heap.blocks == old(heap.blocks) - 5 && jni.Now() == old(jni.Now())
  {
    var o := jni.NewObject(addr, ObjectGraph.String, record);
    if o == 0 {
      heap.Free(5);
      return null;
    }
    r := str;
  }

  /** One more tracked string with one local reference. */
  predicate Tracked(refs: ObjectGraph.Refs, refs': ObjectGraph.Refs, addr: Obj) {
    refs' == refs[addr := ObjectGraph.Counts(ObjectGraph.String, 1, 0)]
  }

  /**
   A string from units, tracked under the address malloc gave its header; null for a negative
   count, missing characters, or lack of memory or room, and then nothing is kept.
   */
  method NewString(heap: Heap, jni: JniHeap, chars: seq<Utf16>, given: bool, charCount: int, mem: Memory, addr: Obj)
    returns (r: JavaString?)
    requires given ==> charCount <= |chars|
    requires charCount <= INT_MAX && jni.Valid() && jni.Fresh(addr)
    modifies heap, jni
    ensures jni.Valid()
    ensures r != null <==> charCount >= 0 && (given || charCount == 0)
                           && (given ==> |Encode(chars[..charCount])| < 0x7FFF_FFFF)
                           && mem.header && mem.first.Both() && mem.second.Both() && mem.record
    ensures r != null ==> fresh(r) && r.Complete() && r.utf16[..] == if given then chars[..charCount] else []
    ensures r != null ==> heap.blocks == old(heap.blocks) + 5 && Tracked(old(jni.refs), jni.refs, addr)
                          && jni.locals == old(jni.locals) + multiset{addr}
    ensures r == null ==> heap.blocks == old(heap.blocks) && jni.Now() == old(jni.Now())
  {
    if charCount < 0 || (!given && charCount != 0) {
      return null;
    }
    var ok := heap.Malloc(mem.header);
    if !ok {
      return null;
    }
    ok := heap.AllocArray(mem.first);
    if !ok {
      heap.Free(1);
      return null;
    }
    r := new JavaString();
    r.utf16 := new Utf16[charCount](i requires 0 <= i => if given && i < charCount then chars[i] else 0);
    ghost var units := if given then chars[..charCount] else [];
    assert r.utf16[..] == units;
    ok := r.Utf16ToUtf8(heap, mem.second, mem.resize);
    if !ok {
      heap.Free(3);
      return null;
    }
    r := Publish(heap, jni, r, addr, mem.record);
  }

  /** A string that has only its bytes yet: those of a C string with the terminator. */
  method FromBytes(bytes: seq<Byte>) returns (r: JavaString)
    ensures fresh(r) && r.utf16 == null && r.utf8 != null && fresh(r.utf8) && r.utf8[..] == bytes + [0]
  {
    r := new JavaString();
    r.utf8 := new Byte[|bytes| + 1](i requires 0 <= i => if i < |bytes| then bytes[i] else 0);
  }

  /** Both conversions of a new string: its bytes become JNI's own form of the units they decode to. */
  method Normalize(r: JavaString, heap: Heap, alloc: Grant, resize: bool, ghost bytes: seq<Byte>) returns (ok: bool)
    requires r.utf16 == null && r.utf8 != null && r.utf8[..] == bytes + [0] && |bytes| < INT_MAX
    modifies r, r.utf8, heap
    ensures r.utf8 != null && (r.utf8 == old(r.utf8) || fresh(r.utf8)) && (r.utf16 != null ==> fresh(r.utf16))
    ensures ok <==> alloc.Both() && |Encode(Decode(bytes))| < 0x7FFF_FFFF
                    && (resize || |Encode(Decode(bytes))| == |bytes|)
    ensures ok ==> r.Complete() && r.utf16[..] == Decode(bytes)
    ensures heap.blocks == old(heap.blocks) + if r.utf16 != null then 2 else 0
  {
    hide Encode, Decode;
    assert r.utf8[..|bytes|] == bytes;
    ok := r.Utf8ToUtf16(heap, alloc, resize);
    if ok {
      ok := r.Utf16ToUtf8(heap, alloc, resize);
    }
  }

  /**
   A string from a C string: decoded first, then written back in JNI's own form. When
   anything is missing, all that was taken is given back.
   */
  method NewStringUTF(heap: Heap, jni: JniHeap, bytes: seq<Byte>, given: bool, mem: Memory, addr: Obj)
    returns (r: JavaString?)
    requires 0 !in bytes && jni.Valid() && jni.Fresh(addr)
    modifies heap, jni
    ensures jni.Valid()
    ensures r != null <==> given && |bytes| < 0x7FFF_FFFF && mem.header && mem.first.Both() && mem.second.Both()
                           && |Encode(Decode(bytes))| < 0x7FFF_FFFF
                           && (mem.resize || |Encode(Decode(bytes))| == |bytes|)
                           && mem.record
    ensures r != null ==> fresh(r) && r.Complete() && r.utf16[..] == Decode(bytes)
    ensures r != null ==> heap.blocks == old(heap.blocks) + 5 && Tracked(old(jni.refs), jni.refs, addr)
                          && jni.locals == old(jni.locals) + multiset{addr}
    ensures r == null ==> heap.blocks == old(heap.blocks) && jni.Now() == old(jni.Now())
  {
    hide Encode, Decode, ObjectGraph.Settled, ObjectGraph.Trackable;
    if !given || |bytes| >= INT_MAX {
      return null;
    }
    var ok := heap.Malloc(mem.header);
    if !ok {
      return null;
    }
    ok := heap.AllocArray(mem.first);
    if !ok {
      heap.Free(1);
      return null;
    }
    r := FromBytes(bytes);
    ok := Normalize(r, heap, mem.second, mem.resize, bytes);
    if !ok {
      if r.utf16 != null {
        heap.Free(2);
      }
      heap.Free(3);
      return null;
    }
    r := Publish(heap, jni, r, addr, mem.record);
  }

  method GetStringUTFLength(str: JavaString?) returns (n: nat)
    requires str != null ==> str.Complete()
    ensures n == if str == null then 0 else |Encode(str.utf16[..])|
  {
    n := if str == null then 0 else str.utf8.Length - 1;
  }

  /** A copy of the bytes with their terminator. */
  method GetStringUTFChars(str: JavaString?, alloc: bool) returns (copy: array?<Byte>)
    requires str != null ==> str.Complete()
    ensures copy == null <==> str == null || !alloc
    ensures copy != null ==> fresh(copy) && copy[..] == Encode(str.utf16[..]) + [0]
  {
    if str == null || !alloc {
      return null;
    }
    copy := new Byte[str.utf8.Length](i requires 0 <= i reads str, str.utf8 =>
      if str.utf8 != null && i < str.utf8.Length then str.utf8[i] else 0);
    assert copy[..] == str.utf8[..];
  }

  /** The modified UTF-8 of a range of units; nothing is written for a bad range, and no terminator. */
  method GetStringUTFRegion(str: JavaString?, start: int, len: int, buf: array?<Byte>)
    requires str != null ==> str.Complete()
    requires str != null && buf != null && 0 <= start && 0 <= len && start + len <= str.utf16.Length ==>
               buf != str.utf8 && |Encode(str.utf16[start..start + len])| <= buf.Length
    modifies buf
    ensures str != null && buf != null && 0 <= start && 0 <= len && start + len <= str.utf16.Length ==>
              var u, full := str.utf16[..], str.utf8[..str.utf8.Length - 1];
              var from, to := |Encode(u[..start])|, |Encode(u[..start + len])|;
              && from <= to <= |full| && to - from <= buf.Length
              && buf[..to - from] == full[from..to]
              && forall j :: to - from <= j < buf.Length ==> buf[j] == old(buf[j])
    ensures buf != null && !(str != null && 0 <= start && 0 <= len && start + len <= str.utf16.Length) ==>
              buf[..] == old(buf[..])
  {
    if str == null || buf == null {
      return;
    }
    if start < 0 || len < 0 || start > str.utf16.Length || len > str.utf16.Length - start {
      return;
    }
    ghost var u := str.utf16[..];
    assert str.utf16[start..start + len] == u[start..start + len];
    RegionIsSlice(u, start, len);
    var n := EncodeInto(str.utf16[start..start + len], buf);
  }

  /** The encoding of a range is the range of the encoding between the encoded lengths of the two prefixes. */
  lemma RegionIsSlice(u: seq<Utf16>, start: nat, len: nat)
    requires start + len <= |u|
    ensures var from, to := |Encode(u[..start])|, |Encode(u[..start + len])|;
            from <= to <= |Encode(u)| && Encode(u[start..start + len]) == Encode(u)[from..to]
  {
    assert u == u[..start + len] + u[start + len..];
    assert u[..start + len] == u[..start] + u[start..start + len];
    EncodeConcat(u[..start + len], u[start + len..]);
    EncodeConcat(u[..start], u[start..start + len]);
  }

  /** The bytes that GetStringUTFChars hands out have no NUL inside and give back the same units. */
  lemma Rebuild(u: seq<Utf16>)
    ensures CString(Encode(u) + [0]) == Encode(u)
    ensures 0 !in Encode(u) && Decode(CString(Encode(u) + [0])) == u
  {
    EncodedIsCanonical(u);
    CStringOf(Encode(u), []);
    assert Encode(u) + [0] + [] == Encode(u) + [0];
    RoundTrip(u);
  }

  /** A copy of a string made through its UTF-8 characters has the same units and the same bytes. */
  method CopyThroughUTF(heap: Heap, jni: JniHeap, str: JavaString, mem: Memory, addr: Obj) returns (r: JavaString?)
    requires str.Complete() && jni.Valid() && jni.Fresh(addr)
    modifies heap, jni
    ensures r != null ==> r.Complete() && r.utf16[..] == str.utf16[..] && r.utf8[..] == str.utf8[..]
  {
    ghost var units := str.utf16[..];
    Rebuild(units);
    var chars := GetStringUTFChars(str, true);
    assert chars[..] == Encode(units) + [0];
    r := NewStringUTF(heap, jni, chars[..chars.Length - 1], true, mem, addr);
  }
}
