/** The key-value store as an object over a directory object, any change of which may fail. */
module PersistentStore {
  import opened Bytes
  import opened ServiceTypes
  import opened StreamChecksum
  import opened EntryFile
  import K = KeyValueStore

  /**
   A directory, as a map from file names to contents, and which of the changes to come fail. A change that
   fails leaves every file as it is: files are written beside the old ones and then renamed.
   */
  class Directory {
    var files: K.Files
    var faults: seq<bool>

    constructor (initial: K.Files, toCome: seq<bool>)
      ensures files == initial && faults == toCome
    {
      files, faults := initial, toCome;
    }

    /** No change fails. */
    predicate Sound()
      reads this
    {
      true !in faults
    }

    method NextChange() returns (ok: bool)
      modifies this`faults
      ensures old(Sound()) ==> Sound() && ok
    {
      ok := true;
      if faults != [] {
        ok := !faults[0];
        faults := faults[1..];
      }
    }

    method Write(name: Name, contents: seq<Byte>) returns (ok: bool)
      modifies this
      ensures files == if ok then old(files)[name := contents] else old(files)
      ensures old(Sound()) ==> Sound() && ok
    {
      ok := NextChange();
      if ok {
        files := files[name := contents];
      }
    }

    method Erase(name: Name) returns (ok: bool)
      modifies this
      ensures files == if ok then old(files) - {name} else old(files)
      ensures old(Sound()) ==> Sound() && ok
    {
      ok := NextChange();
      if ok {
        files := files - {name};
      }
    }

    method EraseAll() returns (ok: bool)
      modifies this
      ensures ok ==> files == map[]
      ensures !ok ==> files == old(files)
      ensures old(Sound()) ==> Sound() && ok
    {
      ok := NextChange();
      if ok {
        files := map[];
      }
    }

    method Replace(contents: K.Files) returns (ok: bool)
      modifies this
      ensures files == if ok then contents else old(files)
      ensures old(Sound()) ==> Sound() && ok
    {
      ok := NextChange();
      if ok {
        files := contents;
      }
    }
  }

  class Store {
    var config: K.Config
    const filesystem: bool
    const directory: Directory
    var entries: K.Entries
    var recovered: nat

    constructor (c: K.Config, onFilesystem: bool, d: Directory, initial: K.Entries, recoveredFiles: nat)
      ensures directory == d && State() == K.Store(c, onFilesystem, initial, d.files, recoveredFiles)
    {
      config, filesystem, directory, entries, recovered := c, onFilesystem, d, initial, recoveredFiles;
    }

    ghost function State(): K.Store
      reads this, directory
    {
      K.Store(config, filesystem, entries, directory.files, recovered)
    }

    /**
     Opening reads the directory in some order; damaged files are renamed, anything else amiss is an error.
     An error leaves the directory as the files read before it left it.
     */
    static method OpenFilesystem(c: K.Config, d: Directory) returns (r: Option<Store>, ghost order: seq<Name>)
      modifies d
      ensures K.Lists(order, old(d.files))
      ensures var start := K.Opening(K.NOTHING_LOADED, old(d.files), 0);
        var outcome := K.OpenAll(c, start, order);
        && (r.Some? ==> K.ValidConfig(c, true) && outcome.Some?)
        && (old(d.Sound()) ==> d.Sound() && (r.Some? <==> K.ValidConfig(c, true) && outcome.Some?))
        && (r.Some? ==>
              && fresh(r.value) && r.value.directory == d
              && r.value.State() == K.Store(
                   c, true, outcome.value.loaded.entries, outcome.value.files, outcome.value.recovered))
        && (r.None? ==> exists n: nat :: n <= |order| && OpenedUpTo(c, start, order, n, d.files))
    {
      hide K.OpenStep, K.Lists, K.ValidConfig;
      var names := IterateDirectory(d.files);
      order := names;
      var o := K.Opening(K.NOTHING_LOADED, d.files, 0);
      ghost var start := o;
      assert OpenedUpTo(c, start, order, 0, d.files);
      if !K.ValidConfig(c, true) {
        return None, order;
      }
      for i := 0 to |names|
        invariant d.files == o.files && (old(d.Sound()) ==> d.Sound())
        invariant K.OpenAll(c, start, names[..i]) == Some(o)
      {
        K.OpenOneMore(c, start, names[..i], names[i]);
        assert names[..i] + [names[i]] == names[..i + 1];
        assert OpenedUpTo(c, start, order, i, d.files);
        var next := K.OpenStep(c, o, names[i]);
        if next.None? {
          K.OpenStaysFailed(c, start, names[..i + 1], names[i + 1..]);
          assert names[..i + 1] + names[i + 1..] == names;
          return None, order;
        }
        if next.value.files != o.files {
          var ok := d.Replace(next.value.files);
          if !ok {
            return None, order;
          }
        }
        o := next.value;
      }
      assert names[..|names|] == names;
      var s := new Store(c, true, d, o.loaded.entries, o.recovered);
      return Some(s), order;
    }

    /** A value that could not be written to its file is not stored. */
    method Put(key: Name, value: seq<Byte>) returns (ok: bool)
      modifies this, directory
      ensures ok ==> (State(), ok) == K.Put(old(State()), key, value)
      ensures !ok ==> State() == old(State())
      ensures old(directory.Sound()) ==> directory.Sound() && (State(), ok) == K.Put(old(State()), key, value)
    {
      hide K.ValidKey, PrintEntry, EncodedFileName, Checksum, K.Total;
      if config.readOnly || !K.ValidKey(key, config.keyPrefix) || value == [] {
        return false;
      }
      var fits := EnsureQuota(key, |value|);
      if !fits {
        return false;
      }
      var checksum := CalculateChecksum(value);
      var e := Entry(config.schemaVersion, value, checksum);
      if filesystem {
        var written := directory.Write(EncodedFileName(key), PrintEntry(key, e));
        if !written {
          return false;
        }
      }
      entries := entries[key := e];
      return true;
    }

    method Get(key: Name) returns (r: Option<seq<Byte>>)
      ensures r == K.Get(State(), key)
    {
      hide K.ValidKey;
      if !K.ValidKey(key, config.keyPrefix) || key !in entries {
        return None;
      }
      return Some(entries[key].value);
    }

    /** If the file cannot be removed, the entry is gone from memory all the same. */
    method Remove(key: Name) returns (ok: bool)
      modifies this, directory
      ensures ok ==> (State(), ok) == K.Remove(old(State()), key)
      ensures !ok ==> State() == if K.Remove(old(State()), key).1 then K.Forgotten(old(State()), key) else old(State())
      ensures old(directory.Sound()) ==> directory.Sound() && (State(), ok) == K.Remove(old(State()), key)
    {
      hide K.ValidKey, EncodedFileName;
      if config.readOnly || !config.allowRemove || !K.ValidKey(key, config.keyPrefix) {
        return false;
      }
      if key !in entries {
        return false;
      }
      entries := entries - {key};
      if filesystem {
        ok := directory.Erase(EncodedFileName(key));
        return;
      }
      return true;
    }

    /** The bytes stored under other keys, plus the new value, against the quota. */
    method EnsureQuota(key: Name, size: nat) returns (fits: bool)
      ensures fits == (K.Total(entries - {key}) + size <= config.quotaBytes)
    {
      var used := 0;
      var keys := entries.Keys - {key};
      assert Only(entries, keys) == entries - {key};
      while keys != {}
        invariant keys <= entries.Keys - {key}
        invariant used + K.Total(Only(entries, keys)) == K.Total(entries - {key})
        decreases keys
      {
        var k :| k in keys;
        K.TotalWithout(Only(entries, keys), k);
        assert Only(entries, keys) - {k} == Only(entries, keys - {k});
        used := used + |entries[k].value|;
        keys := keys - {k};
      }
      fits := used + size <= config.quotaBytes;
    }

    /** If writing the entries out fails, memory is at the new version and only some files are. */
    method MigrateSchema(next: U32) returns (ok: bool, ghost written: K.Entries)
      modifies this, directory
      ensures ok ==> (State(), ok) == K.MigrateSchema(old(State()), next)
      ensures !ok ==>
        if K.MigrateSchema(old(State()), next).1 then
          K.IsPart(written, entries) && State() == K.Rewritten(old(State()), next, written)
        else State() == old(State())
      ensures old(directory.Sound()) ==> directory.Sound() && (State(), ok) == K.MigrateSchema(old(State()), next)
    {
      hide K.Printed;
      written := map[];
      if config.readOnly || next <= config.schemaVersion {
        return false, written;
      }
      config := config.(schemaVersion := next);
      entries := map k | k in entries :: entries[k].(schemaVersion := next);
      if filesystem {
        ok, written := WriteAll(entries, directory);
        return;
      }
      return true, written;
    }

    /** The backup directory is emptied first; if that or a write fails, the backup is not complete. */
    method BackupTo(backup: Directory, safePath: bool) returns (ok: bool, ghost written: K.Entries)
      modifies backup
      ensures ok ==> safePath && backup.files == K.Printed(entries)
      ensures !ok ==>
        backup.files == old(backup.files) || (K.IsPart(written, entries) && backup.files == K.Printed(written))
      ensures old(backup.Sound()) ==> backup.Sound() && ok == safePath
    {
      hide K.Printed;
      written := map[];
      if !safePath {
        return false, written;
      }
      ok := backup.EraseAll();
      if !ok {
        return;
      }
      ok, written := WriteAll(entries, backup);
      assert map[] + K.Printed(written) == K.Printed(written);
    }

    /** A backup that cannot be read changes nothing; if writing the entries out fails, memory holds them anyway. */
    method RestoreFrom(backup: Directory, readable: bool)
      returns (ok: bool, ghost order: seq<Name>, ghost written: K.Entries)
      modifies this, directory
      ensures K.Lists(order, old(backup.files))
      ensures var start := K.Loaded(map[], 0, old(config).schemaVersion);
        var l := K.RestoreAll(old(config), start, old(backup.files), order);
        var accepted := !old(config).readOnly && readable && l.Some?;
        && (ok ==> accepted)
        && (!accepted ==> State() == old(State()))
        && (ok ==> State() == K.RestoredFrom(old(State()), l.value))
        && (accepted && !ok ==>
              K.IsPart(written, l.value.entries) && State() == K.Replaced(old(State()), l.value, written))
        && (old(directory.Sound()) ==> directory.Sound() && ok == accepted)
    {
      hide K.Printed, K.RestoreStep, K.Lists;
      var names := IterateDirectory(backup.files);
      order, written := names, map[];
      if config.readOnly || !readable {
        return false, order, written;
      }
      var l := K.Loaded(map[], 0, config.schemaVersion);
      ghost var start := l;
      for i := 0 to |names|
        invariant State() == old(State()) && backup.files == old(backup.files)
        invariant directory.faults == old(directory.faults)
        invariant K.RestoreAll(config, start, backup.files, names[..i]) == Some(l)
      {
        K.RestoreOneMore(config, start, backup.files, names[..i], names[i]);
        assert names[..i] + [names[i]] == names[..i + 1];
        var next := K.RestoreStep(config, l, backup.files, names[i]);
        if next.None? {
          K.RestoreStaysFailed(config, start, backup.files, names[..i + 1], names[i + 1..]);
          assert names[..i + 1] + names[i + 1..] == names;
          return false, order, written;
        }
        l := next.value;
      }
      assert names[..|names|] == names;
      entries := l.entries;
      config := config.(schemaVersion := l.schema);
      if filesystem {
        ok, written := WriteAll(entries, directory);
        return;
      }
      return true, order, written;
    }
  }

  /** The files after the first `n` of the listed ones have been read. */
  ghost predicate OpenedUpTo(c: K.Config, start: K.Opening, order: seq<Name>, n: nat, files: K.Files)
    requires n <= |order|
  {
    var outcome := K.OpenAll(c, start, order[..n]);
    outcome.Some? && outcome.value.files == files
  }

  function Only(entries: K.Entries, keys: set<Name>): K.Entries
    requires keys <= entries.Keys
  {
    map k | k in keys :: entries[k]
  }

  /** Writes the entries to their files one by one, until a write fails. */
  method WriteAll(entries: K.Entries, d: Directory) returns (ok: bool, ghost written: K.Entries)
    modifies d
    ensures K.IsPart(written, entries) && d.files == old(d.files) + K.Printed(written)
    ensures ok ==> written == entries
    ensures old(d.Sound()) ==> d.Sound() && ok
  {
    hide K.Printed, PrintEntry, EncodedFileName;
    var keys := entries.Keys;
    written := map[];
    NothingPrinted();
    while keys != {}
      invariant keys <= entries.Keys
      invariant written == map k | k in entries && k !in keys :: entries[k]
      invariant d.files == old(d.files) + K.Printed(written)
      invariant old(d.Sound()) ==> d.Sound()
      decreases keys
    {
      var k :| k in keys;
      K.PrintedWith(written, k, entries[k]);
      ok := d.Write(EncodedFileName(k), PrintEntry(k, entries[k]));
      if !ok {
        return;
      }
      written := written[k := entries[k]];
      keys := keys - {k};
    }
    assert written == entries;
    return true, written;
  }

  lemma NothingPrinted()
    ensures K.Printed(map[]) == map[]
  {
  }

  /** The names of the files, in an order of the file system's choosing. */
  method IterateDirectory(files: K.Files) returns (order: seq<Name>)
    ensures K.Lists(order, files)
  {
    order := [];
    var names := files.Keys;
    while names != {}
      invariant names <= files.Keys
      invariant forall i :: 0 <= i < |order| ==> order[i] in files && order[i] !in names
      invariant forall n :: n in files ==> n in names || n in order
      invariant forall i, j :: 0 <= i < j < |order| ==> order[i] != order[j]
      decreases names
    {
      var name :| name in names;
      order := order + [name];
      names := names - {name};
    }
  }
}
