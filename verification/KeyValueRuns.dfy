/** Reopening and restoring return exactly the entries that were stored. */
module KeyValueRuns {
  import opened Bytes
  import opened ServiceTypes
  import opened StreamChecksum
  import opened EntryFile
  import opened KeyValueStore

  // ----- every run keeps the directory in step with the entries -----

  ghost predicate EntriesOk(c: Config, entries: Entries) {
    && (forall k <- entries :: ValidKey(k, c.keyPrefix) && entries[k].checksum == Checksum(entries[k].value))
    && Total(entries) <= c.quotaBytes
  }

  ghost predicate Mirrored(s: Store) {
    EntriesOk(s.config, s.entries) && (s.filesystem ==> s.files == Printed(s.entries))
  }

  lemma SameTotal(a: Entries, b: Entries)
    requires a.Keys == b.Keys && forall k <- a :: a[k].value == b[k].value
    ensures Total(a) == Total(b)
    decreases |a|
  {
    if a == map[] {
      assert b == map[];
    } else {
      var k :| k in a;
      TotalWithout(a, k);
      TotalWithout(b, k);
      SameTotal(a - {k}, b - {k});
    }
  }

  lemma PutKeepsMirror(s: Store, key: Name, value: seq<Byte>)
    requires Mirrored(s)
    ensures Mirrored(Put(s, key, value).0)
  {
    hide Total, Printed, PrintEntry, EncodedFileName, ValidKey, Checksum;
    var e := Entry(s.config.schemaVersion, value, Checksum(value));
    TotalWith(s.entries, key, e);
    PrintedWith(s.entries, key, e);
  }

  lemma RemoveKeepsMirror(s: Store, key: Name)
    requires Mirrored(s)
    ensures Mirrored(Remove(s, key).0)
  {
    hide Total, Printed, PrintEntry, EncodedFileName, ValidKey, Checksum;
    if key in s.entries {
      TotalWithout(s.entries, key);
      PrintedWithout(s.entries, key);
    }
  }

  /** Writing all entries over the files of other entries with the same keys leaves exactly the new ones. */
  lemma OverwriteAll(old_: Entries, new_: Entries)
    requires old_.Keys <= new_.Keys
    ensures Printed(old_) + Printed(new_) == Printed(new_)
  {
    hide PrintEntry, EncodedFileName;
    forall name | name in FileNames(old_)
      ensures name in FileNames(new_)
    {
      assert KeyOfFile(old_, name) in new_;
    }
  }

  lemma MigrateKeepsMirror(s: Store, next: U32)
    requires Mirrored(s)
    ensures Mirrored(MigrateSchema(s, next).0)
  {
    hide Total, Printed, PrintEntry, EncodedFileName, ValidKey, Checksum;
    SameTotal(s.entries, WithSchema(s.entries, next));
    OverwriteAll(s.entries, WithSchema(s.entries, next));
  }

  datatype Action = PutEntry(key: Name, value: seq<Byte>) | RemoveEntry(key: Name) | Migrate(next: U32)

  ghost function Step(s: Store, a: Action): Store {
    match a
    case PutEntry(key, value) => Put(s, key, value).0
    case RemoveEntry(key) => Remove(s, key).0
    case Migrate(next) => MigrateSchema(s, next).0
  }

  ghost function After(s: Store, actions: seq<Action>): Store
    decreases |actions|
  {
    if actions == [] then s else After(Step(s, actions[0]), actions[1..])
  }

  // ----- reading back -----

  /** The action writes the key, and is not refused. */
  ghost predicate Writes(s: Store, a: Action, key: Name) {
    match a
    case PutEntry(k, value) => k == key && Put(s, k, value).1
    case RemoveEntry(k) => k == key && Remove(s, k).1
    case Migrate(_) => false
  }

  ghost predicate NeverWrites(s: Store, actions: seq<Action>, key: Name)
    decreases |actions|
  {
    actions == [] || (!Writes(s, actions[0], key) && NeverWrites(Step(s, actions[0]), actions[1..], key))
  }

  lemma OthersLeaveValue(s: Store, a: Action, key: Name)
    requires !Writes(s, a, key)
    ensures Get(Step(s, a), key) == Get(s, key)
  {
    hide ValidKey, Total, Printed, PrintEntry, EncodedFileName, Checksum;
  }

  /** As long as nothing else is written under its key, a value keeps being read, or keeps missing. */
  lemma {:induction false} ValueLasts(s: Store, actions: seq<Action>, key: Name)
    requires NeverWrites(s, actions, key)
    ensures Get(After(s, actions), key) == Get(s, key)
    decreases |actions|
  {
    hide Step, Get, Writes;
    if actions != [] {
      OthersLeaveValue(s, actions[0], key);
      ValueLasts(Step(s, actions[0]), actions[1..], key);
    }
  }

  /** What is read under a key is what was last stored under it, unless it was removed since. */
  lemma LastWriteIsRead(s: Store, a: Action, actions: seq<Action>, key: Name)
    requires NeverWrites(Step(s, a), actions, key)
    ensures a.PutEntry? && a.key == key && Put(s, key, a.value).1 ==>
      Get(After(s, [a] + actions), key) == Some(a.value)
    ensures a == RemoveEntry(key) && Remove(s, key).1 ==> Get(After(s, [a] + actions), key) == None
  {
    hide ValidKey, Total, PrintEntry, EncodedFileName, Checksum, After, NeverWrites;
    AfterFirst(s, a, actions);
    ValueLasts(Step(s, a), actions, key);
  }

  lemma AfterFirst(s: Store, a: Action, actions: seq<Action>)
    ensures After(s, [a] + actions) == After(Step(s, a), actions)
  {
    assert ([a] + actions)[1..] == actions;
  }

  // ----- memory and directory -----

  lemma {:induction false} RunKeepsMirror(s: Store, actions: seq<Action>)
    requires Mirrored(s)
    ensures Mirrored(After(s, actions))
    ensures After(s, actions).filesystem == s.filesystem
    ensures After(s, actions).config == s.config.(schemaVersion := After(s, actions).config.schemaVersion)
    decreases |actions|
  {
    hide Mirrored, Total, Printed, PrintEntry, EncodedFileName, ValidKey, Checksum, WithSchema;
    if actions != [] {
      match actions[0] {
        case PutEntry(key, value) => PutKeepsMirror(s, key, value);
        case RemoveEntry(key) => RemoveKeepsMirror(s, key);
        case Migrate(next) => MigrateKeepsMirror(s, next);
      }
      RunKeepsMirror(Step(s, actions[0]), actions[1..]);
    }
  }

  function EmptyStore(c: Config, filesystem: bool): Store {
    Store(c, filesystem, map[], map[], 0)
  }

  lemma EmptyIsMirrored(c: Config, filesystem: bool)
    ensures Mirrored(EmptyStore(c, filesystem))
  {
  }

  // ----- reading a mirror of entries -----

  lemma FileReadsBack(c: Config, entries: Entries, name: Name)
    requires EntriesOk(c, entries) && name in FileNames(entries)
    ensures var k := KeyOfFile(entries, name);
      HasExtension(name) && ReadEntry(Printed(entries)[name]) == Some((k, entries[k]))
  {
    hide PrintEntry, ReadEntry, Checksum, HasExtension, EncodedFileName, ValidKey;
    var k := KeyOfFile(entries, name);
    ValidKeyHasNoNewline(k, c.keyPrefix);
    TotalWithout(entries, k);
    EntryRoundTrip(k, entries[k]);
    EntryFileIsRecognised(k);
    PrintedAt(entries, k);
  }

  /** The entries whose files are among the names. */
  ghost function Among(entries: Entries, names: seq<Name>): Entries {
    map k | k in entries && EncodedFileName(k) in names :: entries[k]
  }

  lemma {:induction false} TotalOfPart(part: Entries, whole: Entries)
    requires forall k <- part :: k in whole && whole[k] == part[k]
    ensures Total(part) <= Total(whole)
    decreases |part|
  {
    if part != map[] {
      var k :| k in part;
      TotalWithout(part, k);
      TotalWithout(whole, k);
      TotalOfPart(part - {k}, whole - {k});
    }
  }

  lemma OneMoreAmong(entries: Entries, names: seq<Name>, name: Name)
    requires name in FileNames(entries) && name !in names
    ensures var k := KeyOfFile(entries, name);
      && k !in Among(entries, names)
      && Among(entries, names + [name]) == Among(entries, names)[k := entries[k]]
      && Total(Among(entries, names + [name])) == Total(Among(entries, names)) + |entries[k].value|
      && Total(Among(entries, names + [name])) <= Total(entries)
  {
    hide EncodedFileName, Total;
    var k := KeyOfFile(entries, name);
    forall j | j in entries
      ensures EncodedFileName(j) == name <==> j == k
    {
      FileNameIsInjective(j, k);
    }
    TotalWith(Among(entries, names), k, entries[k]);
    assert Among(entries, names) - {k} == Among(entries, names);
    TotalOfPart(Among(entries, names + [name]), entries);
  }

  /** Reading the first files of a mirror, in whatever order, gives exactly their entries. */
  lemma {:induction false} PrefixRestores(c: Config, schema: U32, entries: Entries, order: seq<Name>, n: nat)
    requires EntriesOk(c, entries) && Lists(order, Printed(entries)) && n <= |order|
    ensures var l := RestoreAll(c, Loaded(map[], 0, schema), Printed(entries), order[..n]);
      l.Some? && l.value.entries == Among(entries, order[..n]) && l.value.usedBytes == Total(Among(entries, order[..n]))
    decreases n
  {
    hide Total, HasExtension, ReadEntry, ValidKey, Checksum, PrintEntry;
    if n == 0 {
      NoneAmong(entries);
    } else {
      var before, name := order[..n - 1], order[n - 1];
      PrefixRestores(c, schema, entries, order, n - 1);
      assert before + [name] == order[..n];
      RestoreOneMore(c, Loaded(map[], 0, schema), Printed(entries), before, name);
      FileReadsBack(c, entries, name);
      OneMoreAmong(entries, before, name);
    }
  }

  lemma NoneAmong(entries: Entries)
    ensures Among(entries, []) == map[] && Total(Among(entries, [])) == 0
  {
  }

  lemma AllAmong(entries: Entries, order: seq<Name>)
    requires Lists(order, Printed(entries))
    ensures Among(entries, order) == entries
  {
    hide EncodedFileName, PrintEntry;
    forall k <- entries
      ensures EncodedFileName(k) in order
    {
      PrintedAt(entries, k);
    }
  }

  lemma MirrorRestores(c: Config, schema: U32, entries: Entries, order: seq<Name>)
    requires EntriesOk(c, entries) && Lists(order, Printed(entries))
    ensures var l := RestoreAll(c, Loaded(map[], 0, schema), Printed(entries), order);
      l.Some? && l.value.entries == entries && l.value.usedBytes == Total(entries)
  {
    hide RestoreAll, Lists, Among, Total;
    PrefixRestores(c, schema, entries, order, |order|);
    assert order[..|order|] == order;
    AllAmong(entries, order);
  }

  /** Opening a directory without damaged files reads it as restoring does. */
  lemma {:induction false} OpenIsRestore(c: Config, l: Loaded, files: Files, order: seq<Name>)
    requires forall name <- files :: ReadEntry(files[name]).Some?
    ensures OpenAll(c, Opening(l, files, 0), order) ==
      match RestoreAll(c, l, files, order)
      case None => None
      case Some(end) => Some(Opening(end, files, 0))
    decreases |order|
  {
    hide Absorbed, ReadEntry, HasExtension;
    if order != [] && RestoreStep(c, l, files, order[0]).Some? {
      OpenIsRestore(c, RestoreStep(c, l, files, order[0]).value, files, order[1..]);
    }
  }

  /** The configuration under which a store is opened again: only the schema version may differ. */
  predicate SameLimits(a: Config, b: Config) {
    a.keyPrefix == b.keyPrefix && a.quotaBytes == b.quotaBytes
  }

  /**
   From an empty directory, after any run of puts, removals and migrations, opening the directory again
   reads exactly the entries held in memory, in whatever order the files are listed, and puts no file
   aside; and what is stored never exceeds the quota.
   */
  lemma ReopenReturnsEntries(c: Config, actions: seq<Action>, again: Config, order: seq<Name>)
    requires var s := After(EmptyStore(c, true), actions);
      Lists(order, s.files) && SameLimits(again, c)
    ensures var s := After(EmptyStore(c, true), actions);
      var outcome := OpenAll(again, Opening(NOTHING_LOADED, s.files, 0), order);
      && outcome.Some? && outcome.value.loaded.entries == s.entries
      && outcome.value.files == s.files && outcome.value.recovered == 0
      && Total(s.entries) <= c.quotaBytes
  {
    hide After, Lists, OpenAll, Mirrored, Total, Printed;
    EmptyIsMirrored(c, true);
    RunKeepsMirror(EmptyStore(c, true), actions);
    MirrorReopens(After(EmptyStore(c, true), actions), again, order);
  }

  /** Opening a mirrored directory reads exactly the entries. */
  lemma MirrorReopens(s: Store, again: Config, order: seq<Name>)
    requires Mirrored(s) && s.filesystem && Lists(order, s.files) && SameLimits(again, s.config)
    ensures var outcome := OpenAll(again, Opening(NOTHING_LOADED, s.files, 0), order);
      && outcome.Some? && outcome.value.loaded.entries == s.entries
      && outcome.value.files == s.files && outcome.value.recovered == 0
      && Total(s.entries) <= s.config.quotaBytes
  {
    hide Lists, RestoreAll, OpenAll, Printed, Total;
    SameLimitsOk(s.config, again, s.entries);
    MirrorRestores(again, 0, s.entries, order);
    forall name <- s.files
      ensures ReadEntry(s.files[name]).Some?
    {
      PrintedIsFileOf(s.entries, name);
      FileReadsBack(again, s.entries, name);
    }
    OpenIsRestore(again, NOTHING_LOADED, s.files, order);
  }

  lemma SameLimitsOk(a: Config, b: Config, entries: Entries)
    requires EntriesOk(a, entries) && SameLimits(b, a)
    ensures EntriesOk(b, entries)
  {
    hide Total, Checksum, ValidKey;
  }

  lemma PrintedIsFileOf(entries: Entries, name: Name)
    requires name in Printed(entries)
    ensures name in FileNames(entries)
  {
  }

  /** Restoring a backup, after whatever else happened, brings back exactly the entries that were backed up. */
  lemma RestoreReturnsBackup(backedUp: Store, s: Store, order: seq<Name>)
    requires Mirrored(backedUp) && SameLimits(s.config, backedUp.config)
    requires Lists(order, Printed(backedUp.entries))
    ensures var l := RestoreAll(
        s.config, Loaded(map[], 0, s.config.schemaVersion), Printed(backedUp.entries), order);
      l.Some? && RestoredFrom(s, l.value).entries == backedUp.entries
      && EntriesOk(RestoredFrom(s, l.value).config, RestoredFrom(s, l.value).entries)
  {
    hide Lists, RestoreAll, Printed, Total, Checksum, ValidKey;
    SameLimitsOk(backedUp.config, s.config, backedUp.entries);
    MirrorRestores(s.config, s.config.schemaVersion, backedUp.entries, order);
  }

  /**
   A restore writes its entries over the directory and removes nothing. So the directory mirrors the store
   afterwards exactly when no key was stored that the backup does not have.
   */
  lemma RestoreLeavesOldFiles(s: Store, l: Loaded)
    requires Mirrored(s) && s.filesystem
    ensures RestoredFrom(s, l).files == Printed(l.entries) <==> s.entries.Keys <= l.entries.Keys
  {
    hide PrintEntry, EncodedFileName, Total, Checksum, ValidKey;
    if s.entries.Keys <= l.entries.Keys {
      OverwriteAll(s.entries, l.entries);
    } else {
      var k :| k in s.entries && k !in l.entries;
      PrintedAt(s.entries, k);
      if EncodedFileName(k) in Printed(l.entries) {
        FileNameIsInjective(KeyOfFile(l.entries, EncodedFileName(k)), k);
      }
    }
  }

  // ----- changes of the directory that fail -----

  /** After a removal that could not erase the file, opening the directory again brings the entry back. */
  lemma FailedRemovalReturns(s: Store, key: Name, again: Config, order: seq<Name>)
    requires Mirrored(s) && s.filesystem && Remove(s, key).1
    requires Lists(order, Forgotten(s, key).files) && SameLimits(again, s.config)
    ensures var outcome := OpenAll(again, Opening(NOTHING_LOADED, Forgotten(s, key).files, 0), order);
      && outcome.Some? && outcome.value.loaded.entries == s.entries
      && key in outcome.value.loaded.entries && key !in Forgotten(s, key).entries
      && !Mirrored(Forgotten(s, key))
  {
    hide Lists, RestoreAll, OpenAll, Printed, Total, ValidKey, Checksum;
    MirrorReopens(s, again, order);
    PrintedAt(s.entries, key);
    NotPrinted(Forgotten(s, key).entries, key);
  }

  lemma NotPrinted(entries: Entries, key: Name)
    requires key !in entries
    ensures EncodedFileName(key) !in Printed(entries)
  {
    hide EncodedFileName, PrintEntry;
    forall k <- entries
      ensures EncodedFileName(k) != EncodedFileName(key)
    {
      FileNameIsInjective(k, key);
    }
  }

  /** A migration of entries of earlier versions leaves a mirror exactly when every entry was rewritten. */
  lemma MigrationMirrorsIfComplete(s: Store, next: U32, written: Entries)
    requires Mirrored(s) && s.filesystem && forall k <- s.entries :: s.entries[k].schemaVersion < next
    requires IsPart(written, WithSchema(s.entries, next))
    ensures Mirrored(Rewritten(s, next, written)) <==> written == WithSchema(s.entries, next)
  {
    hide Printed, Total, ValidKey, Checksum, PrintEntry, EncodedFileName;
    var later := WithSchema(s.entries, next);
    SameTotal(s.entries, later);
    if later.Keys <= written.Keys {
      PartIsWhole(written, later);
      OverwriteAll(s.entries, later);
    } else {
      var k :| k in later.Keys && k !in written.Keys;
      PrintedAt(s.entries, k);
      NotPrinted(written, k);
      PrintedAt(later, k);
      TotalWithout(s.entries, k);
      SchemaShows(s.config, k, s.entries[k], later[k]);
    }
  }

  lemma PartIsWhole(part: Entries, whole: Entries)
    requires IsPart(part, whole) && whole.Keys <= part.Keys
    ensures part == whole
  {
  }

  lemma SchemaShows(c: Config, key: Name, a: Entry, b: Entry)
    requires ValidKey(key, c.keyPrefix) && a.schemaVersion != b.schemaVersion && a.value == b.value
    requires |a.value| < U64_MODULUS && a.checksum == b.checksum == Checksum(a.value)
    ensures PrintEntry(key, a) != PrintEntry(key, b)
  {
    hide PrintEntry, ReadEntry, Checksum, ValidKey;
    ValidKeyHasNoNewline(key, c.keyPrefix);
    EntryRoundTrip(key, a);
    EntryRoundTrip(key, b);
  }
}
