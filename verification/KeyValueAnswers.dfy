/** Which changes a store accepts and what they leave alone, and what damaged files do to opening and restoring. */
module KeyValueAnswers {
  import opened Bytes
  import opened ServiceTypes
  import opened Decimals
  import opened StreamChecksum
  import opened EntryFile
  import opened KeyValueStore
  import opened KeyValueRuns

  // ----- what is accepted -----

  /** 1 to 128 letters, digits, and `-_./`, not starting with a slash, without `..`, under the application's prefix. */
  ghost predicate KeyIsSafe(key: Name, prefix: Name) {
    && 1 <= |key| <= 128 && prefix <= key && key[0] != 0x2F
    && (forall i :: 0 <= i < |key| - 1 && key[i] == 0x2E ==> key[i + 1] != 0x2E)
    && forall b <- key ::
         || 0x30 <= b < 0x3A || 0x41 <= b < 0x5B || 0x61 <= b < 0x7B
         || b in [0x2D, 0x2E, 0x2F, 0x5F]
  }

  lemma SafeIsValid(key: Name, prefix: Name)
    ensures ValidKey(key, prefix) <==> KeyIsSafe(key, prefix)
  {
    assert forall i :: 0 <= i < |key| ==> key[i] in key;
  }

  /** A configuration is fit exactly if its application id is 1 to 64 letters, digits and `-_.`, and nothing is zero. */
  lemma ConfigIsFit(c: Config, filesystem: bool)
    ensures ValidConfig(c, filesystem) <==>
      && 1 <= |c.applicationId| <= 64 && c.schemaVersion > 0 && c.quotaBytes > 0 && (filesystem ==> c.root != [])
      && forall b <- c.applicationId ::
           || 0x30 <= b < 0x3A || 0x41 <= b < 0x5B || 0x61 <= b < 0x7B
           || b in [0x2D, 0x2E, 0x5F]
  {
    assert forall i :: 0 <= i < |c.applicationId| ==> c.applicationId[i] in c.applicationId;
  }

  /**
   A value is stored exactly if the store may be written, the key is safe, the value is not empty, and it and
   what is stored under other keys stay within the quota. It is read back from then on; no other key is
   touched; and its file, if there is one, tells the key, the value and the schema version.
   */
  lemma PutIsExact(s: Store, key: Name, value: seq<Byte>, other: Name)
    ensures var (s', ok) := Put(s, key, value);
      && (ok <==>
            && !s.config.readOnly && KeyIsSafe(key, s.config.keyPrefix) && value != []
            && |value| + Total(s.entries - {key}) <= s.config.quotaBytes)
      && (ok ==> Get(s', key) == Some(value) && (other != key ==> Get(s', other) == Get(s, other)))
      && (ok && s.filesystem ==>
            && s'.files.Keys == s.files.Keys + {EncodedFileName(key)}
            && (|value| < U64_MODULUS ==>
                  ReadEntry(s'.files[EncodedFileName(key)])
                    == Some((key, Entry(s.config.schemaVersion, value, Checksum(value)))))
            && forall n <- s.files :: n != EncodedFileName(key) ==> s'.files[n] == s.files[n])
      && s'.config == s.config && s'.recovered == s.recovered && s'.filesystem == s.filesystem
      && (!s.filesystem ==> s'.files == s.files)
      && (!ok ==> s' == s)
  {
    hide PrintEntry, ReadEntry, EncodedFileName, Checksum, Total, KeyIsSafe, ValidKey;
    SafeIsValid(key, s.config.keyPrefix);
    if Put(s, key, value).1 && |value| < U64_MODULUS {
      ValidKeyHasNoNewline(key, s.config.keyPrefix);
      EntryRoundTrip(key, Entry(s.config.schemaVersion, value, Checksum(value)));
    }
  }

  /** A value is removed exactly if the store may be written, the policy allows it, and there is one. */
  lemma RemoveIsExact(s: Store, key: Name, other: Name)
    ensures var (s', ok) := Remove(s, key);
      && (ok <==>
            && !s.config.readOnly && s.config.allowRemove && KeyIsSafe(key, s.config.keyPrefix) && key in s.entries)
      && (ok ==> Get(s', key) == None && (other != key ==> Get(s', other) == Get(s, other)))
      && (ok && s.filesystem ==>
            && s'.files.Keys == s.files.Keys - {EncodedFileName(key)}
            && forall n <- s'.files :: s'.files[n] == s.files[n])
      && s'.config == s.config && s'.recovered == s.recovered && s'.filesystem == s.filesystem
      && (!s.filesystem ==> s'.files == s.files)
      && (!ok ==> s' == s)
  {
    hide EncodedFileName, KeyIsSafe, ValidKey;
    SafeIsValid(key, s.config.keyPrefix);
  }

  /** A migration goes forward only; it rewrites every entry under the later version and touches no value. */
  lemma MigrationIsExact(s: Store, next: U32, key: Name)
    ensures var (s', ok) := MigrateSchema(s, next);
      && (ok <==> !s.config.readOnly && next > s.config.schemaVersion)
      && (ok ==>
            && s'.config == s.config.(schemaVersion := next) && s'.entries.Keys == s.entries.Keys
            && Get(s', key) == Get(s, key)
            && forall k <- s'.entries ::
                 && s'.entries[k].schemaVersion == next && s'.entries[k].value == s.entries[k].value
                 && s'.entries[k].checksum == s.entries[k].checksum)
      && (!ok ==> s' == s)
  {
    hide Printed, ValidKey;
  }

  // ----- over runs -----

  /** A store that may only be read is as it was after any run. */
  lemma {:induction false} ReadOnlyStays(s: Store, actions: seq<Action>)
    requires s.config.readOnly
    ensures After(s, actions) == s
    decreases |actions|
  {
    hide ValidKey, Total;
    if actions != [] {
      ReadOnlyStays(s, actions[1..]);
    }
  }

  /** Where the policy forbids removal, no key is ever lost. */
  lemma {:induction false} KeysAreKept(s: Store, actions: seq<Action>)
    requires !s.config.allowRemove
    ensures s.entries.Keys <= After(s, actions).entries.Keys
    decreases |actions|
  {
    hide ValidKey, Total, Printed, PrintEntry, EncodedFileName, Checksum;
    if actions != [] {
      KeysAreKept(Step(s, actions[0]), actions[1..]);
    }
  }

  // ----- damage to a file -----

  /** A file with another value behind the same header is read only if size and checksum happen to agree. */
  lemma AnotherValueIsRead(key: Name, e: Entry, value: seq<Byte>)
    requires NoNewline(key) && |e.value| < U64_MODULUS
    ensures ReadEntry(Joined(HeaderLines(key, e), value)) ==
      if |value| == |e.value| && Checksum(value) == e.checksum then Some((key, e.(value := value))) else None
  {
    hide Decimal, Checksum, Lines, ParseBelow, FieldValue, Joined;
    DigitsHaveNoNewline(SCHEMA_PREFIX, e.schemaVersion);
    DigitsHaveNoNewline(SIZE_PREFIX, |e.value|);
    DigitsHaveNoNewline(CHECKSUM_PREFIX, e.checksum);
    LinesOfJoined(HeaderLines(key, e), value);
    EntryFile.FieldOf(SCHEMA_PREFIX, Decimal(e.schemaVersion));
    EntryFile.FieldOf(KEY_PREFIX, key);
    EntryFile.FieldOf(SIZE_PREFIX, Decimal(|e.value|));
    EntryFile.FieldOf(CHECKSUM_PREFIX, Decimal(e.checksum));
    DecimalRoundTrip(e.schemaVersion, U32_MODULUS);
    DecimalRoundTrip(|e.value|, U64_MODULUS);
    DecimalRoundTrip(e.checksum, U32_MODULUS);
  }

  /** So a file whose value was cut short, lengthened, or changed in one octet is damaged. */
  lemma DamageShows(key: Name, e: Entry, value: seq<Byte>)
    requires NoNewline(key) && |e.value| < U64_MODULUS && e.checksum == Checksum(e.value)
    requires |value| != |e.value|
             || exists i :: 0 <= i < |value| && value[i] != e.value[i] && value == e.value[i := value[i]]
    ensures ReadEntry(Joined(HeaderLines(key, e), value)).None?
  {
    hide ChecksumFrom, ReadEntry, Joined, HeaderLines;
    AnotherValueIsRead(key, e, value);
    if |value| == |e.value| {
      var i :| 0 <= i < |value| && value[i] != e.value[i] && value == e.value[i := value[i]];
      OneOctetShows(FNV_OFFSET, e.value, i, value[i]);
    }
  }

  // ----- the form of a file and of its name -----

  /** The text is the prefix and a decimal number below the bound. */
  ghost predicate Tells(line: Name, prefix: Name, bound: nat, n: nat) {
    |prefix| <= |line| && line[..|prefix|] == prefix && ParseBelow(bound, line[|prefix|..]) == Some(n)
  }

  lemma TellsIsField(line: Name, prefix: Name, bound: nat, n: nat)
    ensures Tells(line, prefix, bound, n) <==>
      FieldValue(line, prefix).Some? && ParseBelow(bound, FieldValue(line, prefix).value) == Some(n)
  {
    hide ParseBelow;
  }

  /**
   A file of six lines and a value is an entry file exactly if the first line is the mark of the format and the
   sixth empty, the others tell schema version, key, size and checksum in this order, and size and checksum fit.
   */
  lemma FileIsExact(lines: seq<Name>, value: seq<Byte>, key: Name, e: Entry)
    requires |lines| == 6 && forall i :: 0 <= i < 6 ==> NoNewline(lines[i])
    ensures ReadEntry(Joined(lines, value)) == Some((key, e)) <==>
      && lines[0] == [0x4F, 0x41, 0x4B, 0x56, 0x31] && lines[5] == []
      && Tells(lines[1], SCHEMA_PREFIX, 0x1_0000_0000, e.schemaVersion) && lines[2] == KEY_PREFIX + key
      && Tells(lines[3], SIZE_PREFIX, 0x1_0000_0000_0000_0000, |value|)
      && Tells(lines[4], CHECKSUM_PREFIX, 0x1_0000_0000, e.checksum)
      && e.value == value && e.checksum == Checksum(value)
  {
    hide Checksum, Lines, ParseBelow, FieldValue, Joined, Tells, NoNewline;
    LinesOfJoined(lines, value);
    TellsIsField(lines[1], SCHEMA_PREFIX, U32_MODULUS, e.schemaVersion);
    TellsIsField(lines[3], SIZE_PREFIX, U64_MODULUS, |value|);
    TellsIsField(lines[4], CHECKSUM_PREFIX, U32_MODULUS, e.checksum);
    KeyLine(lines[2], key);
  }

  lemma KeyLine(line: Name, key: Name)
    ensures FieldValue(line, KEY_PREFIX) == Some(key) <==> line == KEY_PREFIX + key
  {
    if KEY_PREFIX <= line {
      assert line == KEY_PREFIX + line[|KEY_PREFIX|..];
    }
  }

  const HEX_DIGITS: seq<Byte> := [
    0x30, 0x31, 0x32, 0x33, 0x34, 0x35, 0x36, 0x37, 0x38, 0x39, 0x61, 0x62, 0x63, 0x64, 0x65, 0x66]

  /** A file is named by the octets of its key in lower-case hexadecimal, and `.oakv`. */
  lemma {:induction false} FileNameIsHex(key: Name, i: nat)
    requires i < |key|
    ensures |EncodedFileName(key)| == 2 * |key| + 5
    ensures EncodedFileName(key)[2 * |key|..] == [0x2E, 0x6F, 0x61, 0x6B, 0x76]
    ensures EncodedFileName(key)[2 * i] == HEX_DIGITS[key[i] / 16]
    ensures EncodedFileName(key)[2 * i + 1] == HEX_DIGITS[key[i] % 16]
    decreases i
  {
    if i > 0 {
      FileNameIsHex(key[1..], i - 1);
      assert Hex(key)[2 * i] == Hex(key[1..])[2 * (i - 1)] && Hex(key)[2 * i + 1] == Hex(key[1..])[2 * (i - 1) + 1];
    }
  }

  /** An entry file has a name before the extension. */
  lemma ExtensionIsExact(name: Name)
    ensures HasExtension(name) <==> exists stem: Name :: stem != [] && name == stem + [0x2E, 0x6F, 0x61, 0x6B, 0x76]
  {
    if HasExtension(name) {
      assert name == name[..|name| - 5] + name[|name| - 5..];
    }
  }

  // ----- opening a directory with damaged files -----

  /** Beside the files of the entries a directory holds damaged entry files and files of no concern. */
  ghost predicate IsDirectory(entries: Entries, damaged: Files, foreign: Files, files: Files) {
    && (forall n <- damaged :: HasExtension(n) && ReadEntry(damaged[n]).None? && n !in Printed(entries))
    && (forall n <- foreign :: !HasExtension(n))
    && files == Printed(entries) + damaged + foreign
  }

  /** The damaged files among the names. */
  function DamagedAmong(damaged: Files, names: seq<Name>): set<Name> {
    set n | n in damaged && n in names
  }

  /** The directory after the damaged files among the names were put aside. */
  ghost predicate PutAside(files: Files, gone: set<Name>, after: Files) {
    && (forall n :: HasExtension(n) ==> (n in after <==> n in files && n !in gone))
    && (forall n :: HasExtension(n) && n in after ==> after[n] == files[n])
    && forall n <- gone :: n in files && n + CORRUPT_SUFFIX in after && after[n + CORRUPT_SUFFIX] == files[n]
  }

  lemma SuffixHidesExtension(name: Name)
    ensures !HasExtension(name + CORRUPT_SUFFIX)
  {
    var moved := name + CORRUPT_SUFFIX;
    if |moved| > |EXTENSION| {
      assert moved[|moved| - |EXTENSION|..][4] == moved[|moved| - 1] != EXTENSION[4];
    }
  }

  lemma OneMoreAside(files: Files, gone: set<Name>, before: Files, name: Name)
    requires PutAside(files, gone, before) && HasExtension(name) && name in before
    ensures PutAside(files, gone + {name}, (before - {name})[name + CORRUPT_SUFFIX := before[name]])
  {
    hide HasExtension;
    SuffixHidesExtension(name);
    forall n <- gone
      ensures n + CORRUPT_SUFFIX != name
    {
      SuffixHidesExtension(n);
    }
    forall n <- gone
      ensures n + CORRUPT_SUFFIX != name + CORRUPT_SUFFIX
    {
      SuffixIsInjective(n, name);
    }
  }

  lemma SuffixIsInjective(a: Name, b: Name)
    ensures a + CORRUPT_SUFFIX == b + CORRUPT_SUFFIX <==> a == b
  {
    if a + CORRUPT_SUFFIX == b + CORRUPT_SUFFIX {
      assert a == (a + CORRUPT_SUFFIX)[..|a|] && b == (b + CORRUPT_SUFFIX)[..|b|];
    }
  }

  lemma OneMoreDamaged(damaged: Files, names: seq<Name>, name: Name)
    requires name !in names
    ensures DamagedAmong(damaged, names + [name])
      == DamagedAmong(damaged, names) + if name in damaged then {name} else {}
    ensures |DamagedAmong(damaged, names + [name])|
      == |DamagedAmong(damaged, names)| + if name in damaged then 1 else 0
  {
    assert DamagedAmong(damaged, names + [name])
      == DamagedAmong(damaged, names) + if name in damaged then {name} else {};
  }

  lemma PrintedIsRead(c: Config, entries: Entries, name: Name)
    requires EntriesOk(c, entries) && name in Printed(entries)
    ensures name in FileNames(entries) && HasExtension(name)
    ensures ReadEntry(Printed(entries)[name]) == Some((KeyOfFile(entries, name), entries[KeyOfFile(entries, name)]))
  {
    hide Total, HasExtension, ReadEntry, ValidKey, Checksum, PrintEntry;
    PrintedIsFileOf(entries, name);
    FileReadsBack(c, entries, name);
  }

  /** What opening has done after the first files, in whatever order they are listed. */
  ghost predicate OpenedSoFar(entries: Entries, damaged: Files, files: Files, names: seq<Name>, o: Option<Opening>) {
    && o.Some?
    && o.value.loaded.entries == Among(entries, names) && o.value.loaded.usedBytes == Total(Among(entries, names))
    && o.value.recovered == |DamagedAmong(damaged, names)|
    && PutAside(files, DamagedAmong(damaged, names), o.value.files)
  }

  lemma NotAmong(entries: Entries, names: seq<Name>, name: Name)
    requires name !in Printed(entries)
    ensures Among(entries, names + [name]) == Among(entries, names)
  {
    hide EncodedFileName, PrintEntry;
    forall k <- entries
      ensures EncodedFileName(k) != name
    {
      PrintedAt(entries, k);
    }
  }

  lemma OneMoreOpened(
    c: Config, entries: Entries, damaged: Files, foreign: Files, files: Files, names: seq<Name>, o: Opening, name: Name)
    requires EntriesOk(c, entries) && IsDirectory(entries, damaged, foreign, files)
    requires OpenedSoFar(entries, damaged, files, names, Some(o)) && name in files && name !in names
    ensures OpenedSoFar(entries, damaged, files, names + [name], OpenStep(c, o, name))
  {
    hide Total, HasExtension, ReadEntry, ValidKey, Checksum, Printed, Among, DamagedAmong, PutAside, EntriesOk;
    OneMoreDamaged(damaged, names, name);
    StillThere(damaged, files, names, o.files, name);
    if name in Printed(entries) {
      PrintedIsRead(c, entries, name);
      var k := KeyOfFile(entries, name);
      KeyIsFine(c, entries, k);
      OneMoreAmong(entries, names, name);
      assert DamagedAmong(damaged, names + [name]) == DamagedAmong(damaged, names);
    } else {
      NotAmong(entries, names, name);
      if name in damaged && name !in foreign {
        OneMoreAside(files, DamagedAmong(damaged, names), o.files, name);
      }
    }
  }

  lemma KeyIsFine(c: Config, entries: Entries, k: Name)
    requires EntriesOk(c, entries) && k in entries
    ensures ValidKey(k, c.keyPrefix) && Total(entries) <= c.quotaBytes
  {
    hide Total, ValidKey, Checksum;
  }

  /** A file not yet listed is as it was. */
  lemma StillThere(damaged: Files, files: Files, names: seq<Name>, now: Files, name: Name)
    requires PutAside(files, DamagedAmong(damaged, names), now) && name in files && name !in names
    ensures HasExtension(name) ==> name in now && now[name] == files[name]
  {
    hide HasExtension;
  }

  lemma {:induction false} PrefixOpens(
    c: Config, entries: Entries, damaged: Files, foreign: Files, files: Files, order: seq<Name>, n: nat)
    requires EntriesOk(c, entries) && IsDirectory(entries, damaged, foreign, files)
    requires Lists(order, files) && n <= |order|
    ensures OpenedSoFar(entries, damaged, files, order[..n], OpenAll(c, Opening(NOTHING_LOADED, files, 0), order[..n]))
    decreases n
  {
    hide OpenedSoFar, IsDirectory, EntriesOk, OpenStep;
    if n == 0 {
      NothingOpened(entries, damaged, files);
    } else {
      var before, name := order[..n - 1], order[n - 1];
      PrefixOpens(c, entries, damaged, foreign, files, order, n - 1);
      assert before + [name] == order[..n];
      OpenOneMore(c, Opening(NOTHING_LOADED, files, 0), before, name);
      SomeIfOpened(entries, damaged, files, before, OpenAll(c, Opening(NOTHING_LOADED, files, 0), before));
      OneMoreOpened(
        c, entries, damaged, foreign, files, before, OpenAll(c, Opening(NOTHING_LOADED, files, 0), before).value, name);
    }
  }

  lemma SomeIfOpened(entries: Entries, damaged: Files, files: Files, names: seq<Name>, o: Option<Opening>)
    requires OpenedSoFar(entries, damaged, files, names, o)
    ensures o.Some?
  {
  }

  lemma NothingOpened(entries: Entries, damaged: Files, files: Files)
    ensures OpenedSoFar(entries, damaged, files, [], Some(Opening(NOTHING_LOADED, files, 0)))
  {
    NoneAmong(entries);
    assert DamagedAmong(damaged, []) == {};
  }

  /**
   Opening a directory in which some entry files are damaged, in whatever order the files are listed, succeeds:
   it reads exactly the entries of the others, puts each damaged file aside under its name with the suffix for
   corrupt files, counts them, and leaves all other entry files as they were.
   */
  lemma DamageIsPutAside(
    c: Config, entries: Entries, damaged: Files, foreign: Files, files: Files, order: seq<Name>)
    requires EntriesOk(c, entries) && IsDirectory(entries, damaged, foreign, files) && Lists(order, files)
    ensures var outcome := OpenAll(c, Opening(NOTHING_LOADED, files, 0), order);
      && outcome.Some? && outcome.value.loaded.entries == entries && outcome.value.recovered == |damaged|
      && PutAside(files, damaged.Keys, outcome.value.files)
  {
    hide OpenAll, EntriesOk, PutAside, OpenedSoFar, IsDirectory, Lists;
    PrefixOpens(c, entries, damaged, foreign, files, order, |order|);
    assert order[..|order|] == order;
    DirectoryHas(entries, damaged, foreign, files);
    WholeOpened(entries, damaged, files, order, OpenAll(c, Opening(NOTHING_LOADED, files, 0), order));
  }

  lemma DirectoryHas(entries: Entries, damaged: Files, foreign: Files, files: Files)
    requires IsDirectory(entries, damaged, foreign, files)
    ensures Printed(entries).Keys <= files.Keys && damaged.Keys <= files.Keys
  {
    hide Printed, HasExtension, ReadEntry;
  }

  lemma WholeOpened(entries: Entries, damaged: Files, files: Files, order: seq<Name>, o: Option<Opening>)
    requires OpenedSoFar(entries, damaged, files, order, o)
    requires Lists(order, files) && Printed(entries).Keys <= files.Keys && damaged.Keys <= files.Keys
    ensures o.Some? && o.value.loaded.entries == entries && o.value.recovered == |damaged|
    ensures PutAside(files, damaged.Keys, o.value.files)
  {
    hide PutAside, Total, Printed, Among;
    assert DamagedAmong(damaged, order) == damaged.Keys;
    AllListed(entries, files, order);
  }

  lemma AllListed(entries: Entries, files: Files, order: seq<Name>)
    requires Lists(order, files) && Printed(entries).Keys <= files.Keys
    ensures Among(entries, order) == entries
  {
    hide EncodedFileName, PrintEntry;
    forall k <- entries
      ensures EncodedFileName(k) in order
    {
      PrintedAt(entries, k);
    }
  }

  /** Restoring gives up as soon as any entry file is damaged, wherever it is listed. */
  lemma {:induction false} DamageStopsRestore(c: Config, l: Loaded, files: Files, order: seq<Name>, i: nat)
    requires i < |order| && order[i] in files && HasExtension(order[i]) && ReadEntry(files[order[i]]).None?
    ensures RestoreAll(c, l, files, order).None?
    decreases |order|
  {
    hide ReadEntry, HasExtension, Absorbed;
    if i > 0 && RestoreStep(c, l, files, order[0]).Some? {
      assert order[1..][i - 1] == order[i];
      DamageStopsRestore(c, RestoreStep(c, l, files, order[0]).value, files, order[1..], i - 1);
    }
  }

  // ----- what any directory opens to -----

  /** The entries that the listed entry files hold, in the order listed, without the damaged ones. */
  function Readable(files: Files, order: seq<Name>): seq<(Name, Entry)> {
    if order == [] then []
    else
      (if order[0] in files && HasExtension(order[0]) && ReadEntry(files[order[0]]).Some?
       then [ReadEntry(files[order[0]]).value] else [])
      + Readable(files, order[1..])
  }

  function Absorbing(c: Config, l: Loaded, items: seq<(Name, Entry)>): Option<Loaded>
    decreases |items|
  {
    if items == [] then Some(l)
    else
      match Absorbed(c, l, items[0].0, items[0].1)
      case None => None
      case Some(next) => Absorbing(c, next, items[1..])
  }

  lemma {:induction false} SameReadable(a: Files, b: Files, order: seq<Name>)
    requires forall n :: n in order && HasExtension(n) ==> (n in a <==> n in b) && (n in a ==> a[n] == b[n])
    ensures Readable(a, order) == Readable(b, order)
    decreases |order|
  {
    hide HasExtension, ReadEntry;
    if order != [] {
      SameReadable(a, b, order[1..]);
    }
  }

  predicate Distinct(order: seq<Name>) {
    forall i, j :: 0 <= i < j < |order| ==> order[i] != order[j]
  }

  /** Opening takes up what is readable; putting damaged files aside does not change what is read later. */
  lemma {:induction false} OpenReads(c: Config, o: Opening, order: seq<Name>)
    requires Distinct(order)
    ensures var outcome, l := OpenAll(c, o, order), Absorbing(c, o.loaded, Readable(o.files, order));
      (outcome.Some? <==> l.Some?) && (outcome.Some? ==> outcome.value.loaded == l.value)
    decreases |order|
  {
    hide HasExtension, ReadEntry, Absorbed;
    if order != [] {
      var name, rest := order[0], order[1..];
      assert forall i :: 0 <= i < |rest| ==> rest[i] == order[i + 1];
      if OpenStep(c, o, name).Some? {
        var next := OpenStep(c, o, name).value;
        SuffixHidesExtension(name);
        SameReadable(next.files, o.files, rest);
        OpenReads(c, next, rest);
      }
      FirstReadable(o.files, order);
    }
  }

  lemma FirstReadable(files: Files, order: seq<Name>)
    requires order != []
    ensures var readable := order[0] in files && HasExtension(order[0]) && ReadEntry(files[order[0]]).Some?;
      if readable then
        Readable(files, order) != [] && Readable(files, order)[0] == ReadEntry(files[order[0]]).value
        && Readable(files, order)[1..] == Readable(files, order[1..])
      else Readable(files, order) == Readable(files, order[1..])
  {
    hide HasExtension, ReadEntry;
  }

  function BytesOf(items: seq<(Name, Entry)>): nat {
    if items == [] then 0 else |items[0].1.value| + BytesOf(items[1..])
  }

  ghost predicate IsFirstOf(items: seq<(Name, Entry)>, i: int) {
    0 <= i < |items| && forall j :: 0 <= j < i ==> items[j].0 != items[i].0
  }

  /** Each key has the first entry that came for it, unless there was one before, and there are no other keys. */
  ghost predicate FirstsAre(before: Entries, items: seq<(Name, Entry)>, after: Entries) {
    && (forall k :: k in after <==> k in before || exists i :: 0 <= i < |items| && items[i].0 == k)
    && (forall k <- before :: k in after && after[k] == before[k])
    && forall i :: IsFirstOf(items, i) && items[i].0 !in before ==>
         items[i].0 in after && after[items[i].0] == items[i].1
  }

  /** The largest of the schema versions. */
  ghost predicate IsLatest(before: U32, items: seq<(Name, Entry)>, after: U32) {
    && before <= after && (forall i :: 0 <= i < |items| ==> items[i].1.schemaVersion <= after)
    && (after == before || exists i :: 0 <= i < |items| && items[i].1.schemaVersion == after)
  }

  /** All are taken up exactly if every key is safe and they stay within the quota together, repeated keys included. */
  ghost predicate AllFit(c: Config, l: Loaded, items: seq<(Name, Entry)>) {
    && (forall i :: 0 <= i < |items| ==> KeyIsSafe(items[i].0, c.keyPrefix))
    && (items != [] ==> l.usedBytes + BytesOf(items) <= c.quotaBytes)
  }

  lemma FirstsFurther(before: Entries, items: seq<(Name, Entry)>, middle: Entries, after: Entries)
    requires items != [] && FirstsAre(middle, items[1..], after)
    requires middle == if items[0].0 in before then before else before[items[0].0 := items[0].1]
    ensures FirstsAre(before, items, after)
  {
    var rest := items[1..];
    assert forall i :: 0 <= i < |rest| ==> rest[i] == items[i + 1];
    forall k
      ensures k in after <==> k in before || exists i :: 0 <= i < |items| && items[i].0 == k
    {
      assert items[0] == items[0];
      assert forall i :: 0 < i < |items| ==> items[i] == rest[i - 1];
    }
    forall i | IsFirstOf(items, i) && items[i].0 !in before
      ensures items[i].0 in after && after[items[i].0] == items[i].1
    {
      if i > 0 {
        assert items[0].0 != items[i].0;
        assert IsFirstOf(rest, i - 1);
      }
    }
  }

  lemma LatestFurther(before: U32, items: seq<(Name, Entry)>, after: U32)
    requires items != []
    requires IsLatest(if before < items[0].1.schemaVersion then items[0].1.schemaVersion else before, items[1..], after)
    ensures IsLatest(before, items, after)
  {
    var rest := items[1..];
    assert forall i :: 0 <= i < |rest| ==> rest[i] == items[i + 1];
    assert forall i :: 0 < i < |items| ==> items[i] == rest[i - 1];
  }

  lemma {:induction false} AbsorbingIsExact(c: Config, l: Loaded, items: seq<(Name, Entry)>)
    ensures var end := Absorbing(c, l, items);
      && (end.Some? <==> AllFit(c, l, items))
      && (end.Some? ==>
            && FirstsAre(l.entries, items, end.value.entries) && IsLatest(l.schema, items, end.value.schema)
            && end.value.usedBytes == l.usedBytes + BytesOf(items))
    decreases |items|
  {
    hide ValidKey, KeyIsSafe, FirstsAre, IsLatest;
    if items == [] {
      NothingAbsorbed(l);
    } else {
      var rest := items[1..];
      assert forall i :: 0 <= i < |rest| ==> rest[i] == items[i + 1];
      assert forall i :: 0 < i < |items| ==> items[i] == rest[i - 1];
      SafeIsValid(items[0].0, c.keyPrefix);
      var next := Absorbed(c, l, items[0].0, items[0].1);
      if next.Some? {
        AbsorbingIsExact(c, next.value, rest);
        if Absorbing(c, next.value, rest).Some? {
          var end := Absorbing(c, next.value, rest).value;
          FirstsFurther(l.entries, items, next.value.entries, end.entries);
          LatestFurther(l.schema, items, end.schema);
        }
      }
    }
  }

  lemma NothingAbsorbed(l: Loaded)
    ensures FirstsAre(l.entries, [], l.entries) && IsLatest(l.schema, [], l.schema)
  {
  }

  /**
   Opening any directory succeeds exactly if the entries that can be read have safe keys and fit the quota
   together. Each key then has the first entry listed for it.
   */
  lemma OpeningIsExact(c: Config, files: Files, order: seq<Name>)
    requires Lists(order, files)
    ensures var outcome, items := OpenAll(c, Opening(NOTHING_LOADED, files, 0), order), Readable(files, order);
      && (outcome.Some? <==> AllFit(c, NOTHING_LOADED, items))
      && (outcome.Some? ==> FirstsAre(map[], items, outcome.value.loaded.entries))
  {
    hide OpenAll, Absorbing, AllFit, FirstsAre, IsLatest, Readable;
    OpenReads(c, Opening(NOTHING_LOADED, files, 0), order);
    AbsorbingIsExact(c, NOTHING_LOADED, Readable(files, order));
  }

  /** So does restoring from a backup without damage; its schema version is the latest of them and the present one. */
  lemma RestoringIsExact(c: Config, files: Files, order: seq<Name>)
    requires Lists(order, files) && forall n <- files :: HasExtension(n) ==> ReadEntry(files[n]).Some?
    ensures var start, items := Loaded(map[], 0, c.schemaVersion), Readable(files, order);
      var l := RestoreAll(c, start, files, order);
      && (l.Some? <==> AllFit(c, start, items))
      && (l.Some? ==>
            FirstsAre(map[], items, l.value.entries) && IsLatest(c.schemaVersion, items, l.value.schema))
  {
    hide RestoreAll, Absorbing, AllFit, FirstsAre, IsLatest, Readable, HasExtension, ReadEntry;
    RestoreReads(c, Loaded(map[], 0, c.schemaVersion), files, order);
    AbsorbingIsExact(c, Loaded(map[], 0, c.schemaVersion), Readable(files, order));
  }

  lemma {:induction false} RestoreReads(c: Config, l: Loaded, files: Files, order: seq<Name>)
    requires forall n <- files :: HasExtension(n) ==> ReadEntry(files[n]).Some?
    ensures RestoreAll(c, l, files, order) == Absorbing(c, l, Readable(files, order))
    decreases |order|
  {
    hide HasExtension, ReadEntry, Absorbed;
    if order != [] {
      FirstReadable(files, order);
      if RestoreStep(c, l, files, order[0]).Some? {
        RestoreReads(c, RestoreStep(c, l, files, order[0]).value, files, order[1..]);
      }
    }
  }
}
