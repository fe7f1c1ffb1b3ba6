/**
 Whole runs of the config store, with restarts that load what the last save left.
 */
module ConfigRuns {
  import opened Basics
  import opened ConfigTable

  datatype Op = SetKey(key: Text, value: Text) | EraseKey(key: Text) | Restart

  /** The table in memory and the file behind it, None if there is none. */
  datatype State = State(entries: seq<Entry>, file: Option<seq<Byte>>)

  /** The table of a new process. */
  function Reopened(file: Option<seq<Byte>>): seq<Entry> {
    if file.None? then [] else Loaded([], file.value)
  }

  /** One call whose save succeeds, or a restart. */
  function After(st: State, op: Op): State {
    match op
    case SetKey(key, value) =>
      var entries := Set(st.entries, key, value);
      if HasPlace(st.entries, key) then State(entries, Some(Saved(entries))) else st
    case EraseKey(key) =>
      var entries := Erase(st.entries, key);
      if Find(st.entries, key, 0) != -1 then State(entries, Some(Saved(entries))) else st
    case Restart => st.(entries := Reopened(st.file))
  }

  function Run(file: Option<seq<Byte>>, ops: seq<Op>): State {
    if ops == [] then State(Reopened(file), file)
    else After(Run(file, ops[..|ops| - 1]), ops[|ops| - 1])
  }

  /** What the same calls make of a finite map; a restart keeps it. */
  function Items(m: map<Text, Text>, ops: seq<Op>): map<Text, Text> {
    if ops == [] then m else
    var before := Items(m, ops[..|ops| - 1]);
    match ops[|ops| - 1]
    case SetKey(key, value) => MapSet(before, key, value)
    case EraseKey(key) => before - {key}
    case Restart => before
  }

  /**
   What a caller can check before the call: the key fits or meets a full table; no separators are in
   a table to be loaded again.
   */
  predicate Allowed(st: State, op: Op) {
    match op
    case SetKey(key, _) => |key| <= 95 || |st.entries| == 256
    case EraseKey(_) => true
    case Restart => AllClean(st.entries)
  }

  /** The file is what the table came from or was saved to. */
  predicate InStep(st: State) {
    Fits(st.entries) && (st.entries == Reopened(st.file) || st.file == Some(Saved(st.entries)))
  }

  lemma ReopenedClean(file: Option<seq<Byte>>)
    ensures AllClean(Reopened(file)) && Fits(Reopened(file))
  {
    if file.Some? {
      LoadedClean([], file.value);
    }
  }

  /** A table that holds a separator somewhere is not the map of clean entries. */
  lemma CleanMeans(entries: seq<Entry>, clean: seq<Entry>, m: map<Text, Text>)
    requires Means(entries, m) && Means(clean, m) && AllClean(clean)
    ensures AllClean(entries)
  {
    forall i | 0 <= i < |entries|
      ensures Clean(entries[i])
    {
      var j :| 0 <= j < |clean| && clean[j].key == entries[i].key;
      assert Clean(clean[j]);
    }
  }

  lemma RestartExact(st: State, m: map<Text, Text>)
    requires InStep(st) && Means(st.entries, m)
    ensures Means(Reopened(st.file), m) <==> AllClean(st.entries)
    ensures AllClean(st.entries) ==> Reopened(st.file) == st.entries
  {
    ReopenedClean(st.file);
    hide Means, AllClean, Fits;
    if st.entries != Reopened(st.file) {
      LoadSaved(st.entries);
    }
    if Means(Reopened(st.file), m) {
      CleanMeans(st.entries, Reopened(st.file), m);
    }
  }

  /** One step keeps the refinement exactly if it is allowed. */
  lemma StepExact(st: State, m: map<Text, Text>, op: Op)
    requires InStep(st) && Means(st.entries, m)
    ensures var m' := match op
              case SetKey(key, value) => MapSet(m, key, value)
              case EraseKey(key) => m - {key}
              case Restart => m;
            Means(After(st, op).entries, m') <==> Allowed(st, op)
    ensures Allowed(st, op) ==> InStep(After(st, op))
  {
    hide Means, Fits, Set, Erase, MapSet, AllClean, Reopened, Saved;
    match op
    case SetKey(key, value) =>
      MeansSetExact(st.entries, m, key, value);
      FitsKept(st.entries, key, value);
      NoPlaceNoChange(st.entries, key, value);
    case EraseKey(key) =>
      MeansErase(st.entries, m, key);
      FitsKept(st.entries, key, []);
      AbsentNoChange(st.entries, key);
    case Restart =>
      RestartExact(st, m);
      ReopenedClean(st.file);
  }

  lemma NoPlaceNoChange(entries: seq<Entry>, key: Text, value: Text)
    ensures !HasPlace(entries, key) ==> Set(entries, key, value) == entries
  {
  }

  lemma AbsentNoChange(entries: seq<Entry>, key: Text)
    ensures Find(entries, key, 0) == -1 ==> Erase(entries, key) == entries
  {
  }

  ghost predicate Refines(file: Option<seq<Byte>>, m: map<Text, Text>, ops: seq<Op>) {
    forall k {:trigger ops[..k]} :: 0 <= k <= |ops| ==> Means(Run(file, ops[..k]).entries, Items(m, ops[..k]))
  }

  ghost predicate AllAllowed(file: Option<seq<Byte>>, ops: seq<Op>) {
    forall k :: 0 <= k < |ops| ==> Allowed(Run(file, ops[..k]), ops[k])
  }

  lemma PrefixSplit(file: Option<seq<Byte>>, m: map<Text, Text>, ops: seq<Op>)
    requires ops != []
    ensures var before := ops[..|ops| - 1];
            && (Refines(file, m, ops) <==> Refines(file, m, before) && Means(Run(file, ops).entries, Items(m, ops)))
            && (AllAllowed(file, ops) <==> AllAllowed(file, before) && Allowed(Run(file, before), ops[|ops| - 1]))
  {
    hide Means, Allowed, Run, Items;
    var n := |ops| - 1;
    var before := ops[..n];
    assert ops[..n + 1] == ops;
    assert forall k :: 0 <= k <= n ==> before[..k] == ops[..k];
  }

  /**
   Whatever file with distinct keys a run starts from: the table is the finite map the
   same calls make, at every moment and across restarts, exactly if every set has a key
   that fits or meets a full table and every restart meets a table without separators.
   */
  lemma {:induction false} RunExact(file: Option<seq<Byte>>, m: map<Text, Text>, ops: seq<Op>)
    requires Means(Reopened(file), m)
    ensures Refines(file, m, ops) <==> AllAllowed(file, ops)
    ensures AllAllowed(file, ops) ==> InStep(Run(file, ops))
  {
    if ops == [] {
      ReopenedClean(file);
      assert ops[..0] == ops;
    } else {
      var before := ops[..|ops| - 1];
      RunExact(file, m, before);
      PrefixSplit(file, m, ops);
      assert before[..|before|] == before;
      if Refines(file, m, before) {
        hide Refines, AllAllowed;
        RefinesLast(file, m, before);
        StepExact(Run(file, before), Items(m, before), ops[|ops| - 1]);
      }
    }
  }

  lemma RefinesLast(file: Option<seq<Byte>>, m: map<Text, Text>, ops: seq<Op>)
    requires Refines(file, m, ops)
    ensures Means(Run(file, ops).entries, Items(m, ops))
  {
    assert ops[..|ops|] == ops;
  }

  // ----- which files give distinct keys

  /** The keys of all lines that have a tab. */
  function LineKeys(file: seq<Byte>): seq<Text>
    decreases |file|
  {
    if file == [] then []
    else
      var n := LineLength(file);
      match EntryOf(AsText(file[..n]))
      case None => LineKeys(file[n..])
      case Some(e) => [e.key] + LineKeys(file[n..])
  }

  function Keys(entries: seq<Entry>): seq<Text> {
    seq(|entries|, i requires 0 <= i < |entries| => entries[i].key)
  }

  function FirstKeys(keys: seq<Text>, room: int): seq<Text> {
    if room <= 0 then [] else if |keys| <= room then keys else keys[..room]
  }

  lemma KeysStep(entries: seq<Entry>, e: Entry, rest: seq<Text>, room: int)
    requires room > 0
    ensures Keys(entries + [e]) + FirstKeys(rest, room - 1) == Keys(entries) + FirstKeys([e.key] + rest, room)
  {
    assert Keys(entries + [e]) == Keys(entries) + [e.key];
    assert FirstKeys([e.key] + rest, room) == [e.key] + FirstKeys(rest, room - 1);
  }

  lemma KeysEnd(entries: seq<Entry>, keys: seq<Text>)
    ensures Keys(entries) + FirstKeys([], CFG_MAX - |entries|) == Keys(entries)
    ensures |entries| >= CFG_MAX ==> Keys(entries) + FirstKeys(keys, CFG_MAX - |entries|) == Keys(entries)
  {
  }

  lemma {:induction false} LoadedKeys(entries: seq<Entry>, file: seq<Byte>)
    ensures Keys(Loaded(entries, file)) == Keys(entries) + FirstKeys(LineKeys(file), CFG_MAX - |entries|)
    decreases |file|
  {
    hide LineLength, AsText, EntryOf, Keys, FirstKeys;
    KeysEnd(entries, LineKeys(file));
    if file != [] && |entries| < CFG_MAX {
      var n := LineLength(file);
      match EntryOf(AsText(file[..n]))
      case None => LoadedKeys(entries, file[n..]);
      case Some(e) =>
        LoadedKeys(entries + [e], file[n..]);
        KeysStep(entries, e, LineKeys(file[n..]), CFG_MAX - |entries|);
    }
  }

  predicate AllDifferent(keys: seq<Text>) {
    forall i, j :: 0 <= i < j < |keys| ==> keys[i] != keys[j]
  }

  lemma DistinctKeys(entries: seq<Entry>)
    ensures Distinct(entries) <==> AllDifferent(Keys(entries))
  {
    var keys := Keys(entries);
    assert forall i :: 0 <= i < |entries| ==> keys[i] == entries[i].key;
  }

  /** Loading gives distinct keys exactly if no two of the first 256 lines with a tab start with the same key. */
  lemma LoadDistinctExact(file: seq<Byte>)
    ensures Distinct(Loaded([], file)) <==> AllDifferent(FirstKeys(LineKeys(file), CFG_MAX))
  {
    hide Loaded, LineKeys, FirstKeys, Distinct, AllDifferent;
    assert Keys([]) == [];
    LoadedKeys([], file);
    DistinctKeys(Loaded([], file));
    assert [] + FirstKeys(LineKeys(file), CFG_MAX) == FirstKeys(LineKeys(file), CFG_MAX);
  }

  /** Two lines with one key are two entries, and erasing the key leaves one of them. */
  lemma DoubleLine(key: Text, v: Text, w: Text)
    requires |key| <= KEY_MAX && |v| <= VALUE_MAX && |w| <= VALUE_MAX && Clean(Entry(key, v)) && Clean(Entry(key, w))
    ensures var twice := Loaded([], Saved([Entry(key, v), Entry(key, w)]));
            !Distinct(twice) && Find(Erase(twice, key), key, 0) != -1
  {
    hide *;
    var entries := [Entry(key, v), Entry(key, w)];
    TwiceInTable(entries, key);
    PairClean(entries[0], entries[1]);
    LoadSaved(entries);
  }

  lemma PairClean(a: Entry, b: Entry)
    requires Clean(a) && |a.key| <= KEY_MAX && |a.value| <= VALUE_MAX
    requires Clean(b) && |b.key| <= KEY_MAX && |b.value| <= VALUE_MAX
    ensures Fits([a, b]) && AllClean([a, b])
  {
    hide Clean;
  }

  lemma TwiceInTable(entries: seq<Entry>, key: Text)
    requires |entries| == 2 && entries[0].key == key == entries[1].key
    ensures !Distinct(entries) && Find(Erase(entries, key), key, 0) != -1
  {
    assert entries[0].key == entries[1].key;
    assert Erase(entries, key)[0].key == key;
  }
}
