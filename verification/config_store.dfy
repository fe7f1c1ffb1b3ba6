/**
 The config store: two parallel arrays of key and value buffers, loaded from a file on
 first use and saved after every change. A lock serializes the calls, so each is one step.
 */
module ConfigStore {
  import opened Basics
  import opened ConfigTable
  import ConfigRuns

  /** How an attempt to write the file ends; a broken one leaves some other content. */
  datatype Disk = Written | Refused | Broken(content: seq<Byte>)

  function Zip(keys: seq<Text>, vals: seq<Text>, count: nat): (r: seq<Entry>)
    requires count <= |keys| && count <= |vals|
    ensures |r| == count && forall i :: 0 <= i < count ==> r[i] == Entry(keys[i], vals[i])
  {
    seq(count, i requires 0 <= i < count => Entry(keys[i], vals[i]))
  }

  /** The file after an attempt to save. */
  function FileAfter(file: Option<seq<Byte>>, entries: seq<Entry>, disk: Disk): Option<seq<Byte>> {
    match disk
    case Written => Some(Saved(entries))
    case Refused => file
    case Broken(content) => Some(content)
  }

  lemma {:induction false} SavedSplit(entries: seq<Entry>, i: nat)
    requires i < |entries|
    ensures Saved(entries[..i + 1]) == Saved(entries[..i]) + LineOf(entries[i])
  {
    hide LineOf;
    if i == 0 {
      assert entries[..1] == [entries[0]] && entries[..1][1..] == [] && entries[..0] == [];
    } else {
      SavedSplit(entries[1..], i - 1);
      assert entries[..i + 1][1..] == entries[1..][..i] && entries[..i][1..] == entries[1..][..i - 1];
    }
  }

  class Store {
    const keys: array<Text>
    const vals: array<Text>
    var count: nat
    var loaded: bool
    /** What the path of the store leads to; None if it cannot be opened. */
    var file: Option<seq<Byte>>

    ghost predicate Valid()
      reads this, keys, vals
    {
      && keys.Length == CFG_MAX && vals.Length == CFG_MAX && keys != vals && count <= CFG_MAX
      && Fits(Zip(keys[..], vals[..], count))
    }

    ghost function Entries(): seq<Entry>
      requires Valid()
      reads this, keys, vals
    {
      Zip(keys[..], vals[..], count)
    }

    /** The table as every call finds it after loading. */
    ghost function Opened(): seq<Entry>
      requires Valid()
      reads this, keys, vals
    {
      if loaded || file.None? then Entries() else Loaded(Entries(), file.value)
    }

    constructor (file: Option<seq<Byte>>)
      ensures Valid() && Entries() == [] && !loaded && this.file == file && fresh(keys) && fresh(vals)
      ensures Opened() == ConfigRuns.Reopened(file)
    {
      keys, vals := new Text[CFG_MAX](_ => []), new Text[CFG_MAX](_ => []);
      count, loaded := 0, false;
      this.file := file;
    }

    /** Puts one more entry behind the others. */
    method Append(e: Entry)
      requires Valid() && count < CFG_MAX && |e.key| <= KEY_MAX && |e.value| <= VALUE_MAX
      modifies this`count, keys, vals
      ensures Valid() && Entries() == old(Entries()) + [e] && count == old(count) + 1
    {
      keys[count], vals[count] := e.key, e.value;
      count := count + 1;
      assert Zip(keys[..], vals[..], count) == old(Zip(keys[..], vals[..], count)) + [e];
    }

    /** cfg_load_locked. */
    method Load()
      requires Valid()
      modifies this`loaded, this`count, keys, vals
      ensures Valid() && loaded && Entries() == old(Opened())
    {
      if loaded {
        return;
      }
      loaded := true;
      if file.None? {
        return;
      }
      var rest := file.value;
      ghost var all := Loaded(Entries(), rest);
      hide LineLength, AsText, EntryOf, Fits, Zip;
      while rest != [] && count < CFG_MAX
        invariant Valid() && loaded && Loaded(Entries(), rest) == all
        decreases |rest|
      {
        var n := LineLength(rest);
        var line := AsText(rest[..n]);
        var e := EntryOf(line);
        EntryClean(rest);
        if e.Some? {
          Append(e.value);
        }
        rest := rest[n..];
      }
    }

    /** cfg_save_locked. */
    method Save(disk: Disk) returns (ok: bool)
      requires Valid()
      modifies this`file
      ensures ok == disk.Written? && file == FileAfter(old(file), Entries(), disk)
    {
      match disk {
        case Refused => return false;
        case Broken(content) =>
          file := Some(content);
          return false;
        case Written =>
      }
      var out: seq<Byte> := [];
      var i := 0;
      ghost var entries := Entries();
      hide Fits, LineOf;
      while i < count
        invariant 0 <= i <= count && out == Saved(entries[..i])
      {
        SavedSplit(entries, i);
        out := out + LineOf(Entry(keys[i], vals[i]));
        i := i + 1;
      }
      assert entries[..i] == entries;
      file := Some(out);
      ok := true;
    }

    /** cfg_find_locked. */
    method FindKey(key: Text) returns (i: int)
      requires Valid()
      ensures i == Find(Entries(), key, 0)
    {
      i := 0;
      hide Fits;
      while i < count
        invariant 0 <= i <= count && Find(Entries(), key, i) == Find(Entries(), key, 0)
      {
        if keys[i] == key {
          return;
        }
        i := i + 1;
      }
      i := -1;
    }

    /** cfg_get: whether the key is there, and its value cut to the caller's buffer of `size`. */
    method Get(key: Text, size: nat) returns (found: bool, value: Text)
      requires Valid()
      modifies this`loaded, this`count, keys, vals
      ensures Valid() && loaded && Entries() == old(Opened())
      ensures found <==> Find(Entries(), key, 0) != -1
      ensures size > 0 ==>
                var stored := if found then Entries()[Find(Entries(), key, 0)].value else [];
                value <= stored && |value| == if |stored| < size then |stored| else size - 1
    {
      Load();
      var i := FindKey(key);
      found := i >= 0;
      hide Fits;
      value := [];
      if size > 0 {
        value := Cut(if i >= 0 then vals[i] else [], size - 1);
      }
    }

    /** Overwrites the value at a place in the table. */
    method Overwrite(i: nat, value: Text)
      requires Valid() && i < count && |value| <= VALUE_MAX
      modifies vals
      ensures Valid() && Entries() == old(Entries())[i := Entry(old(Entries())[i].key, value)]
    {
      vals[i] := value;
      assert Zip(keys[..], vals[..], count) == old(Zip(keys[..], vals[..], count))[i := Entry(keys[i], value)];
    }

    /** cfg_set. */
    method Put(key: Text, value: Text, disk: Disk) returns (ok: bool)
      requires Valid()
      modifies this, keys, vals
      ensures Valid() && loaded && Entries() == Set(old(Opened()), key, value)
      ensures ok <==> HasPlace(old(Opened()), key) && disk.Written?
      ensures ok <==> disk.Written? && (|old(Opened())| < 256 || exists e :: e in old(Opened()) && e.key == key)
      ensures file == if HasPlace(old(Opened()), key) then FileAfter(old(file), Entries(), disk) else old(file)
      ensures disk.Written? ==>
                var before := ConfigRuns.State(old(Opened()), old(file));
                ConfigRuns.State(Entries(), file) == ConfigRuns.After(before, ConfigRuns.SetKey(key, value))
    {
      ConfigRuns.NoPlaceNoChange(Opened(), key, value);
      HasPlaceIs(Opened(), key);
      Load();
      var i := FindKey(key);
      hide Fits, Zip;
      if i < 0 {
        if count >= CFG_MAX {
          return false;
        }
        Append(Entry(Cut(key, KEY_MAX), Cut(value, VALUE_MAX)));
      } else {
        Overwrite(i, Cut(value, VALUE_MAX));
      }
      ok := Save(disk);
    }

    /** The last entry moves to place `i`. */
    method SwapDelete(i: nat)
      requires Valid() && i < count
      modifies this`count, keys, vals
      ensures Valid()
      ensures Entries() == SwappedOut(old(Entries()), i)
    {
      count := count - 1;
      if i != count {
        keys[i], vals[i] := keys[count], vals[count];
      }
      ghost var es := old(Entries());
      assert Zip(keys[..], vals[..], count) == SwappedOut(es, i);
    }

    /** cfg_erase. */
    method Remove(key: Text, disk: Disk)
      requires Valid()
      modifies this, keys, vals
      ensures Valid() && loaded && Entries() == Erase(old(Opened()), key)
      ensures file == if Find(old(Opened()), key, 0) != -1 then FileAfter(old(file), Entries(), disk) else old(file)
      ensures disk.Written? ==>
                var before := ConfigRuns.State(old(Opened()), old(file));
                ConfigRuns.State(Entries(), file) == ConfigRuns.After(before, ConfigRuns.EraseKey(key))
    {
      ConfigRuns.AbsentNoChange(Opened(), key);
      hide Fits, Zip, SwappedOut, Loaded, Find;
      Load();
      var i := FindKey(key);
      if i >= 0 {
        SwapDelete(i);
        var ok := Save(disk);
      }
    }
  }
}
