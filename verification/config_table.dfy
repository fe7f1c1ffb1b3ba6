/**
 The table of config entries on values: finding, setting, erasing, and the text file it
 is saved to and loaded from.
 */
module ConfigTable {
  import opened Basics

  /** A C string without its terminator. */
  type Text = s: seq<Byte> | 0 !in s witness []

  const CFG_MAX := 256
  const KEY_MAX := 95
  const VALUE_MAX := 255
  const LINE_MAX := 367
  const TAB: Byte := 9
  const NEWLINE: Byte := 10

  datatype Entry = Entry(key: Text, value: Text)

  /** snprintf into a buffer for `n` characters and the terminator. */
  function Cut(s: Text, n: nat): (r: Text)
    ensures r <= s && |r| == if |s| < n then |s| else n
  {
    if |s| <= n then s else s[..n]
  }

  // ----- the table

  /** cfg_find_locked from place `i` on. */
  function Find(entries: seq<Entry>, key: Text, i: nat): (r: int)
    requires i <= |entries|
    ensures r == -1 <==> forall j :: i <= j < |entries| ==> entries[j].key != key
    ensures r != -1 ==> i <= r < |entries| && entries[r].key == key && forall j :: i <= j < r ==> entries[j].key != key
    decreases |entries| - i
  {
    if i == |entries| then -1 else if entries[i].key == key then i else Find(entries, key, i + 1)
  }

  /** Whether cfg_set has a place for the key. */
  predicate HasPlace(entries: seq<Entry>, key: Text) {
    Find(entries, key, 0) != -1 || |entries| < CFG_MAX
  }

  /** A key that is there has one, and any other as long as there are fewer than 256 entries. */
  lemma HasPlaceIs(entries: seq<Entry>, key: Text)
    ensures HasPlace(entries, key) <==> |entries| < 256 || exists i :: 0 <= i < |entries| && entries[i].key == key
  {
  }

  function Set(entries: seq<Entry>, key: Text, value: Text): seq<Entry>
  {
    var i := Find(entries, key, 0);
    if i != -1 then entries[i := Entry(entries[i].key, Cut(value, VALUE_MAX))]
    else if |entries| >= CFG_MAX then entries
    else entries + [Entry(Cut(key, KEY_MAX), Cut(value, VALUE_MAX))]
  }

  /** The last entry takes the place of the erased one. */
  function Erase(entries: seq<Entry>, key: Text): seq<Entry>
  {
    var i := Find(entries, key, 0);
    if i == -1 then entries else SwappedOut(entries, i)
  }

  /** Entry `i` is gone; the last entry has taken its place. */
  function SwappedOut(entries: seq<Entry>, i: nat): (r: seq<Entry>)
    requires i < |entries|
    ensures |r| == |entries| - 1
    ensures forall j :: 0 <= j < |r| ==> r[j] == entries[if j == i then |r| else j]
  {
    var last := |entries| - 1;
    if i == last then entries[..last] else entries[..last][i := entries[last]]
  }

  // ----- as a finite map

  predicate Distinct(entries: seq<Entry>) {
    forall i, j :: 0 <= i < j < |entries| ==> entries[i].key != entries[j].key
  }

  predicate Fits(entries: seq<Entry>) {
    && |entries| <= CFG_MAX
    && forall i :: 0 <= i < |entries| ==> |entries[i].key| <= KEY_MAX && |entries[i].value| <= VALUE_MAX
  }

  /** The entries are exactly the items of the map. */
  ghost predicate Means(entries: seq<Entry>, m: map<Text, Text>) {
    && Distinct(entries)
    && (forall i :: 0 <= i < |entries| ==> entries[i].key in m && m[entries[i].key] == entries[i].value)
    && (forall k :: k in m ==> exists i :: 0 <= i < |entries| && entries[i].key == k)
  }

  lemma MeansFind(entries: seq<Entry>, m: map<Text, Text>, key: Text)
    requires Means(entries, m)
    ensures var i := Find(entries, key, 0);
            (i != -1 <==> key in m) && (i != -1 ==> m[key] == entries[i].value)
  {
  }

  /** Without its last entry. */
  lemma MeansLess(entries: seq<Entry>, m: map<Text, Text>)
    requires Means(entries, m) && entries != []
    ensures var k := entries[|entries| - 1].key;
            k in m && Means(entries[..|entries| - 1], m - {k})
  {
    var last := |entries| - 1;
    var shorter, m' := entries[..last], m - {entries[last].key};
    forall k | k in m'
      ensures exists i :: 0 <= i < |shorter| && shorter[i].key == k
    {
      var i :| 0 <= i < |entries| && entries[i].key == k;
      assert shorter[i].key == k;
    }
  }

  lemma {:induction false} MeansSize(entries: seq<Entry>, m: map<Text, Text>)
    requires Means(entries, m)
    ensures |m| == |entries|
    decreases |entries|
  {
    if entries == [] {
      assert m.Keys == {};
    } else {
      var k := entries[|entries| - 1].key;
      MeansLess(entries, m);
      hide Means;
      MeansSize(entries[..|entries| - 1], m - {k});
      assert m.Keys == (m - {k}).Keys + {k};
    }
  }

  /** The map after a set; a full map takes no new key. */
  function MapSet(m: map<Text, Text>, key: Text, value: Text): map<Text, Text> {
    if key in m || |m| < 256 then m[key := if |value| <= 255 then value else value[..255]] else m
  }

  /** A new value for the key at place `i`. */
  lemma MeansOverwrite(entries: seq<Entry>, m: map<Text, Text>, i: nat, value: Text)
    requires Means(entries, m) && i < |entries|
    ensures Means(entries[i := Entry(entries[i].key, value)], m[entries[i].key := value])
  {
    var key := entries[i].key;
    var entries', m' := entries[i := Entry(key, value)], m[key := value];
    forall k | k in m'
      ensures exists j :: 0 <= j < |entries'| && entries'[j].key == k
    {
      var j :| 0 <= j < |entries| && entries[j].key == k;
      assert entries'[j].key == k;
    }
  }

  /** One more entry for a new key. */
  lemma MeansAppend(entries: seq<Entry>, m: map<Text, Text>, e: Entry)
    requires Means(entries, m) && e.key !in m
    ensures Means(entries + [e], m[e.key := e.value])
  {
    var entries', m' := entries + [e], m[e.key := e.value];
    forall k | k in m'
      ensures exists j :: 0 <= j < |entries'| && entries'[j].key == k
    {
      if k == e.key {
        assert entries'[|entries|].key == k;
      } else {
        var j :| 0 <= j < |entries| && entries[j].key == k;
        assert entries'[j].key == k;
      }
    }
  }

  /** Setting an existing key keeps the size; a new one needs room. */
  lemma MeansSet(entries: seq<Entry>, m: map<Text, Text>, key: Text, value: Text)
    requires Means(entries, m) && |key| <= KEY_MAX
    ensures Means(Set(entries, key, value), MapSet(m, key, value))
  {
    MeansFind(entries, m, key);
    MeansSize(entries, m);
    hide Means;
    var i := Find(entries, key, 0);
    if i != -1 {
      MeansOverwrite(entries, m, i, Cut(value, VALUE_MAX));
    } else if |entries| < CFG_MAX {
      MeansAppend(entries, m, Entry(key, Cut(value, VALUE_MAX)));
    }
  }

  /**
   One set refines the update of the map exactly if the key fits its buffer or the table
   is full: a longer key is new, and the table then gets an entry for its cut.
   */
  lemma MeansSetExact(entries: seq<Entry>, m: map<Text, Text>, key: Text, value: Text)
    requires Means(entries, m) && Fits(entries)
    ensures Means(Set(entries, key, value), MapSet(m, key, value)) <==> |key| <= 95 || |entries| == 256
  {
    MeansFind(entries, m, key);
    MeansSize(entries, m);
    if |key| <= KEY_MAX {
      MeansSet(entries, m, key, value);
    } else {
      FitsKept(entries, key, value);
      assert Find(entries, key, 0) == -1;
      if |entries| < CFG_MAX {
        assert key in MapSet(m, key, value);
      }
    }
  }

  lemma DistinctSwapped(entries: seq<Entry>, i: nat)
    requires Distinct(entries) && i < |entries|
    ensures Distinct(SwappedOut(entries, i))
    ensures forall j :: 0 <= j < |entries| - 1 ==> SwappedOut(entries, i)[j].key != entries[i].key
  {
    hide SwappedOut;
  }

  lemma KeysSwapped(entries: seq<Entry>, i: nat, key: Text)
    requires i < |entries| && key != entries[i].key && exists j :: 0 <= j < |entries| && entries[j].key == key
    ensures exists j :: 0 <= j < |entries| - 1 && SwappedOut(entries, i)[j].key == key
  {
    hide SwappedOut;
    var j :| 0 <= j < |entries| && entries[j].key == key;
    assert SwappedOut(entries, i)[if j == |entries| - 1 then i else j].key == key;
  }

  lemma MeansSwapped(entries: seq<Entry>, m: map<Text, Text>, i: nat)
    requires Means(entries, m) && i < |entries|
    ensures Means(SwappedOut(entries, i), m - {entries[i].key})
  {
    DistinctSwapped(entries, i);
    hide SwappedOut, Distinct;
    forall k | k in m - {entries[i].key}
      ensures exists j :: 0 <= j < |entries| - 1 && SwappedOut(entries, i)[j].key == k
    {
      KeysSwapped(entries, i, k);
    }
  }

  lemma MeansErase(entries: seq<Entry>, m: map<Text, Text>, key: Text)
    requires Means(entries, m)
    ensures Means(Erase(entries, key), m - {key})
  {
    MeansFind(entries, m, key);
    hide Means;
    var i := Find(entries, key, 0);
    if i == -1 {
      assert m - {key} == m;
    } else {
      MeansSwapped(entries, m, i);
    }
  }

  lemma DistinctAppend(entries: seq<Entry>, e: Entry)
    requires Distinct(entries)
    ensures Distinct(entries + [e]) <==> Find(entries, e.key, 0) == -1
  {
    var i, entries' := Find(entries, e.key, 0), entries + [e];
    if i != -1 {
      assert entries'[i].key == entries'[|entries|].key;
    }
  }

  lemma DistinctOverwrite(entries: seq<Entry>, i: nat, value: Text)
    requires Distinct(entries) && i < |entries|
    ensures Distinct(entries[i := Entry(entries[i].key, value)])
  {
  }

  lemma LongKeyNotFound(entries: seq<Entry>, key: Text)
    requires Fits(entries) && |key| > KEY_MAX
    ensures Find(entries, key, 0) == -1
  {
  }

  /**
   Keys that are cut on storing are never found again: distinctness goes exactly when the cut key is
   there already.
   */
  lemma DistinctExact(entries: seq<Entry>, key: Text, value: Text)
    requires Distinct(entries) && Fits(entries)
    ensures Distinct(Set(entries, key, value))
       <==> |key| <= KEY_MAX || |entries| == CFG_MAX || Find(entries, Cut(key, KEY_MAX), 0) == -1
  {
    if |key| > KEY_MAX {
      LongKeyNotFound(entries, key);
    }
    assert |entries| <= CFG_MAX;
    hide Distinct, Fits;
    var i := Find(entries, key, 0);
    if i != -1 {
      DistinctOverwrite(entries, i, Cut(value, VALUE_MAX));
    } else {
      DistinctAppend(entries, Entry(Cut(key, KEY_MAX), Cut(value, VALUE_MAX)));
    }
  }

  /** Setting a key of 96 characters twice leaves two entries for what is left of it. */
  lemma LongKeyTwice(key: Text, value: Text)
    requires |key| == 96
    ensures !Distinct(Set(Set([], key, value), key, value))
  {
    var once := Set([], key, value);
    assert once[0].key == Cut(key, KEY_MAX);
    var twice := Set(once, key, value);
    assert twice[0].key == twice[1].key;
  }

  lemma FitsKept(entries: seq<Entry>, key: Text, value: Text)
    requires Fits(entries)
    ensures Fits(Set(entries, key, value)) && Fits(Erase(entries, key))
  {
  }

  // ----- the file

  function LineOf(e: Entry): seq<Byte> {
    e.key + [TAB] + e.value + [NEWLINE]
  }

  /** cfg_save_locked: one line for each entry. */
  function Saved(entries: seq<Entry>): seq<Byte> {
    if entries == [] then [] else LineOf(entries[0]) + Saved(entries[1..])
  }

  /** strchr, or the end of the string. */
  function IndexOf(s: seq<Byte>, c: Byte): (i: nat)
    ensures i <= |s| && (forall j :: 0 <= j < i ==> s[j] != c) && (i < |s| ==> s[i] == c)
  {
    if s == [] || s[0] == c then 0 else 1 + IndexOf(s[1..], c)
  }

  /** The length of what fgets reads next. */
  function LineLength(file: seq<Byte>): (n: nat)
    requires file != []
    ensures 0 < n <= |file|
  {
    var i := IndexOf(file, NEWLINE);
    var n := if i < |file| then i + 1 else i;
    if n <= LINE_MAX then n else LINE_MAX
  }

  /** What a line read by fgets is as a C string. */
  function AsText(line: seq<Byte>): Text {
    line[..IndexOf(line, 0)]
  }

  /** One line: the key before the first tab, the value behind it up to the newline. */
  function EntryOf(line: Text): Option<Entry> {
    var tab := IndexOf(line, TAB);
    if tab == |line| then None
    else
      var value := line[tab + 1..];
      Some(Entry(Cut(line[..tab], KEY_MAX), Cut(value[..IndexOf(value, NEWLINE)], VALUE_MAX)))
  }

  /** cfg_load_locked behind `entries`: lines without a tab are skipped, a full table ends the reading. */
  function Loaded(entries: seq<Entry>, file: seq<Byte>): seq<Entry>
    decreases |file|
  {
    if file == [] || |entries| >= CFG_MAX then entries
    else
      var n := LineLength(file);
      match EntryOf(AsText(file[..n]))
      case None => Loaded(entries, file[n..])
      case Some(e) => Loaded(entries + [e], file[n..])
  }

  /** What fgets reads with a buffer of 368 bytes: up to the first newline, the end, or 367 bytes. */
  lemma LineExact(file: seq<Byte>)
    requires file != []
    ensures var n := LineLength(file);
            && 0 < n <= 367 && n <= |file| && 10 !in file[..n - 1]
            && (n == 367 || n == |file| || file[n - 1] == 10)
  {
  }

  /**
   A line whose first tab is behind `key`, with `value` up to the newline or the end, is that entry,
   cut to its buffers.
   */
  lemma EntryExact(key: Text, value: Text, rest: Text)
    requires 9 !in key && 10 !in value && (rest == [] || rest[0] == 10)
    ensures var e := EntryOf(key + [9] + (value + rest));
            && e.Some?
            && e.value.key == (if |key| <= 95 then key else key[..95])
            && e.value.value == (if |value| <= 255 then value else value[..255])
  {
    var behind := value + rest;
    var line := key + [9] + behind;
    IndexOfFirst(key, TAB, behind);
    if rest == [] {
      IndexOfMissing(value);
      assert behind == value;
    } else {
      IndexOfFirst(value, NEWLINE, rest[1..]);
      assert behind == value + [NEWLINE] + rest[1..];
    }
    hide IndexOf;
    assert line[..|key|] == key && line[|key| + 1..] == behind && behind[..|value|] == value;
  }

  lemma IndexOfMissing(s: seq<Byte>)
    requires 10 !in s
    ensures IndexOf(s, 10) == |s|
  {
  }

  /** A line without a tab is no entry. */
  lemma NoTabNoEntry(line: Text)
    ensures EntryOf(line).None? <==> 9 !in line
  {
    hide Cut;
    var tab := IndexOf(line, TAB);
    if 9 in line {
      var j :| 0 <= j < |line| && line[j] == 9;
      assert tab <= j;
    }
  }

  /** The file is the entries in order, each as its key, a tab, its value and a newline. */
  lemma {:induction false} SavedExact(before: seq<Entry>, e: Entry)
    ensures Saved([]) == [] && Saved(before + [e]) == Saved(before) + (e.key + [9] + e.value + [10])
  {
    if before == [] {
      assert before + [e] == [e] && [e][1..] == [];
      assert Saved([e]) == LineOf(e) + [];
    } else {
      SavedExact(before[1..], e);
      assert (before + [e])[1..] == before[1..] + [e];
    }
  }

  /** The entries that survive as a line of text. */
  predicate Clean(e: Entry) {
    TAB !in e.key && NEWLINE !in e.key && NEWLINE !in e.value
  }

  predicate AllClean(entries: seq<Entry>) {
    forall i :: 0 <= i < |entries| ==> Clean(entries[i])
  }

  lemma {:induction false} IndexOfFirst(s: seq<Byte>, c: Byte, rest: seq<Byte>)
    requires c !in s
    ensures IndexOf(s + [c] + rest, c) == |s| && IndexOf(s, c) == |s|
  {
    if s == [] {
      assert s + [c] + rest == [c] + rest;
    } else {
      IndexOfFirst(s[1..], c, rest);
      assert (s + [c] + rest)[1..] == s[1..] + [c] + rest;
    }
  }

  lemma EntryReadBack(e: Entry)
    requires Clean(e) && |e.key| <= KEY_MAX && |e.value| <= VALUE_MAX
    ensures 0 !in LineOf(e) && EntryOf(LineOf(e)) == Some(e)
  {
    var line := LineOf(e);
    var behind := e.value + [NEWLINE];
    IndexOfFirst(e.key, TAB, behind);
    assert line == e.key + [TAB] + behind;
    IndexOfFirst(e.value, NEWLINE, []);
    assert behind == e.value + [NEWLINE] + [];
    hide IndexOf;
    assert line[..|e.key|] == e.key && line[|e.key| + 1..] == behind && behind[..|e.value|] == e.value;
  }

  /** The line of a clean entry of the right size is what fgets reads, and is read back. */
  lemma LineReadBack(e: Entry, rest: seq<Byte>)
    requires Clean(e) && |e.key| <= KEY_MAX && |e.value| <= VALUE_MAX
    ensures var file := LineOf(e) + rest;
            && LineLength(file) == |LineOf(e)| && file[..|LineOf(e)|] == LineOf(e)
            && 0 !in LineOf(e) && AsText(LineOf(e)) == LineOf(e) && EntryOf(LineOf(e)) == Some(e)
  {
    EntryReadBack(e);
    var line, body := LineOf(e), e.key + [TAB] + e.value;
    assert NEWLINE !in body;
    IndexOfFirst(body, NEWLINE, rest);
    assert line + rest == body + [NEWLINE] + rest;
    IndexOfAbsent(line);
    hide IndexOf, EntryOf;
  }

  lemma IndexOfAbsent(line: seq<Byte>)
    ensures 0 !in line ==> IndexOf(line, 0) == |line| && line[..|line|] == line
  {
  }

  lemma {:induction false} LoadSavedBehind(before: seq<Entry>, entries: seq<Entry>)
    requires AllClean(entries) && Fits(before + entries)
    ensures Loaded(before, Saved(entries)) == before + entries
    decreases |entries|
  {
    if entries == [] {
      assert before + entries == before;
    } else {
      var e, rest := entries[0], Saved(entries[1..]);
      assert e == (before + entries)[|before|];
      LineReadBack(e, rest);
      assert before + entries == before + [e] + entries[1..];
      LoadSavedBehind(before + [e], entries[1..]);
      assert Saved(entries)[|LineOf(e)|..] == rest;
    }
  }

  /** Whatever a file holds, the entries loaded from it are clean and fit their buffers. */
  lemma {:induction false} LoadedClean(entries: seq<Entry>, file: seq<Byte>)
    requires AllClean(entries) && Fits(entries)
    ensures AllClean(Loaded(entries, file)) && Fits(Loaded(entries, file))
    decreases |file|
  {
    if file != [] && |entries| < CFG_MAX {
      var n := LineLength(file);
      var line := AsText(file[..n]);
      if EntryOf(line).Some? {
        EntryClean(file);
        LoadedClean(entries + [EntryOf(line).value], file[n..]);
      } else {
        LoadedClean(entries, file[n..]);
      }
    }
  }

  lemma EntryClean(file: seq<Byte>)
    requires file != []
    ensures var e := EntryOf(AsText(file[..LineLength(file)]));
            e.Some? ==> Clean(e.value) && |e.value.key| <= KEY_MAX && |e.value.value| <= VALUE_MAX
  {
    var n := LineLength(file);
    var line := AsText(file[..n]);
    assert forall j :: 0 <= j < |line| - 1 ==> line[j] == file[j] && line[j] != NEWLINE;
  }

  /** Saving and loading into an empty table restores it exactly if every entry is clean. */
  lemma LoadSaved(entries: seq<Entry>)
    requires Fits(entries)
    ensures Loaded([], Saved(entries)) == entries <==> AllClean(entries)
  {
    if AllClean(entries) {
      assert [] + entries == entries;
      LoadSavedBehind([], entries);
    } else {
      LoadedClean([], Saved(entries));
    }
  }
}
