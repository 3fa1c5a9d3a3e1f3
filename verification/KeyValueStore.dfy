/** Key-value persistency: an in-memory cache over a directory of self-describing entry files. */
module KeyValueStore {
  import opened Bytes
  import opened ServiceTypes
  import opened StreamChecksum
  import opened EntryFile

  const CORRUPT_SUFFIX: Name := [0x2E, 0x63, 0x6F, 0x72, 0x72, 0x75, 0x70, 0x74]
  const MAX_KEY_LENGTH: nat := 128
  const MAX_APPLICATION_ID_LENGTH: nat := 64
  const SLASH: Byte := 0x2F
  const DOT: Byte := 0x2E

  type Files = map<Name, seq<Byte>>
  type Entries = map<Name, Entry>

  datatype Config = Config(
    applicationId: Name,
    root: Name,
    schemaVersion: U32,
    quotaBytes: U64,
    keyPrefix: Name,
    readOnly: bool,
    allowRemove: bool)

  /** A store on the filesystem also has its directory in `files`; an in-memory store leaves it alone. */
  datatype Store = Store(config: Config, filesystem: bool, entries: Entries, files: Files, recovered: nat)

  // ----- keys -----

  predicate SafeCharacter(b: Byte) {
    || 0x61 <= b <= 0x7A || 0x41 <= b <= 0x5A || 0x30 <= b <= 0x39
    || b == 0x2D || b == 0x5F || b == DOT || b == SLASH
  }

  predicate ValidKey(key: Name, prefix: Name) {
    && 0 < |key| <= MAX_KEY_LENGTH
    && key[0] != SLASH
    && (forall i :: 0 <= i < |key| - 1 ==> !(key[i] == DOT && key[i + 1] == DOT))
    && (forall i :: 0 <= i < |key| ==> SafeCharacter(key[i]))
    && prefix <= key
  }

  predicate ValidConfig(c: Config, filesystem: bool) {
    && 0 < |c.applicationId| <= MAX_APPLICATION_ID_LENGTH
    && (forall i :: 0 <= i < |c.applicationId| ==> SafeCharacter(c.applicationId[i]) && c.applicationId[i] != SLASH)
    && c.schemaVersion != 0 && c.quotaBytes != 0
    && (filesystem ==> c.root != [])
  }

  lemma ValidKeyHasNoNewline(key: Name, prefix: Name)
    requires ValidKey(key, prefix)
    ensures NoNewline(key) && key != []
  {
  }

  // ----- stored bytes -----

  ghost function Total(entries: Entries): nat
    decreases |entries|
  {
    if entries == map[] then 0
    else
      var k :| k in entries;
      |entries[k].value| + Total(entries - {k})
  }

  /** The sum can be taken in any order. */
  lemma {:induction false} TotalWithout(entries: Entries, k: Name)
    requires k in entries
    ensures Total(entries) == |entries[k].value| + Total(entries - {k})
    decreases |entries|
  {
    var j :| j in entries && Total(entries) == |entries[j].value| + Total(entries - {j});
    if j != k {
      TotalWithout(entries - {j}, k);
      TotalWithout(entries - {k}, j);
      assert entries - {j} - {k} == entries - {k} - {j};
    }
  }

  lemma TotalWith(entries: Entries, k: Name, e: Entry)
    ensures Total(entries[k := e]) == |e.value| + Total(entries - {k})
  {
    TotalWithout(entries[k := e], k);
    assert entries[k := e] - {k} == entries - {k};
  }

  // ----- the directory that mirrors the entries -----

  ghost function FileNames(entries: Entries): set<Name> {
    set k | k in entries :: EncodedFileName(k)
  }

  /** The key whose entry the named file holds. */
  ghost function KeyOfFile(entries: Entries, name: Name): (k: Name)
    requires name in FileNames(entries)
    ensures k in entries && EncodedFileName(k) == name
  {
    var k :| k in entries && EncodedFileName(k) == name;
    k
  }

  ghost function Printed(entries: Entries): Files {
    map name | name in FileNames(entries) ::
      PrintEntry(KeyOfFile(entries, name), entries[KeyOfFile(entries, name)])
  }

  lemma PrintedAt(entries: Entries, k: Name)
    requires k in entries
    ensures EncodedFileName(k) in Printed(entries)
    ensures Printed(entries)[EncodedFileName(k)] == PrintEntry(k, entries[k])
  {
    hide EncodedFileName, PrintEntry;
    FileNameIsInjective(KeyOfFile(entries, EncodedFileName(k)), k);
  }

  lemma PrintedWith(entries: Entries, k: Name, e: Entry)
    ensures Printed(entries[k := e]) == Printed(entries)[EncodedFileName(k) := PrintEntry(k, e)]
  {
    hide EncodedFileName, PrintEntry;
    var more := entries[k := e];
    forall name | name in FileNames(more)
      ensures name in FileNames(entries) || name == EncodedFileName(k)
      ensures Printed(more)[name] == if name == EncodedFileName(k) then PrintEntry(k, e) else Printed(entries)[name]
    {
      var j := KeyOfFile(more, name);
      FileNameIsInjective(j, k);
      PrintedAt(more, j);
      if j != k {
        PrintedAt(entries, j);
      }
    }
    assert k in more;
    forall name | name in FileNames(entries)
      ensures name in FileNames(more)
    {
      assert KeyOfFile(entries, name) in more;
    }
  }

  lemma PrintedWithout(entries: Entries, k: Name)
    requires k in entries
    ensures Printed(entries - {k}) == Printed(entries) - {EncodedFileName(k)}
  {
    hide EncodedFileName, PrintEntry;
    var less := entries - {k};
    forall name | name in FileNames(entries)
      ensures name in FileNames(less) <==> name != EncodedFileName(k)
      ensures name in FileNames(less) ==> Printed(less)[name] == Printed(entries)[name]
    {
      var j := KeyOfFile(entries, name);
      FileNameIsInjective(j, k);
      PrintedAt(entries, j);
      if j != k {
        assert j in less;
        PrintedAt(less, j);
      }
      if name in FileNames(less) {
        FileNameIsInjective(KeyOfFile(less, name), k);
      }
    }
    forall name | name in FileNames(less)
      ensures name in FileNames(entries)
    {
      assert KeyOfFile(less, name) in entries;
    }
  }

  // ----- putting, removing, migrating -----

  ghost function Put(s: Store, key: Name, value: seq<Byte>): (Store, bool) {
    if s.config.readOnly || !ValidKey(key, s.config.keyPrefix) || value == [] then (s, false)
    else if Total(s.entries - {key}) + |value| > s.config.quotaBytes then (s, false)
    else
      var e := Entry(s.config.schemaVersion, value, Checksum(value));
      (s.(entries := s.entries[key := e],
          files := if s.filesystem then s.files[EncodedFileName(key) := PrintEntry(key, e)] else s.files),
       true)
  }

  function Get(s: Store, key: Name): Option<seq<Byte>> {
    if ValidKey(key, s.config.keyPrefix) && key in s.entries then Some(s.entries[key].value) else None
  }

  function Remove(s: Store, key: Name): (Store, bool) {
    if s.config.readOnly || !s.config.allowRemove || !ValidKey(key, s.config.keyPrefix) || key !in s.entries then
      (s, false)
    else
      (s.(entries := s.entries - {key},
          files := if s.filesystem then s.files - {EncodedFileName(key)} else s.files),
       true)
  }

  /** Removed from memory, while the file stays. */
  function Forgotten(s: Store, key: Name): Store {
    s.(entries := s.entries - {key})
  }

  function WithSchema(entries: Entries, schema: U32): Entries {
    map k | k in entries :: entries[k].(schemaVersion := schema)
  }

  /** Every entry written to its file. */
  ghost function Flushed(s: Store): Store {
    if s.filesystem then s.(files := s.files + Printed(s.entries)) else s
  }

  /** The store under the later schema version, with some of its entries rewritten. */
  ghost function Rewritten(s: Store, next: U32, written: Entries): Store {
    var s' := s.(config := s.config.(schemaVersion := next), entries := WithSchema(s.entries, next));
    if s.filesystem then s'.(files := s.files + Printed(written)) else s'
  }

  ghost function MigrateSchema(s: Store, next: U32): (Store, bool) {
    if s.config.readOnly || next <= s.config.schemaVersion then (s, false)
    else
      (Flushed(s.(config := s.config.(schemaVersion := next), entries := WithSchema(s.entries, next))), true)
  }

  /** Some of the entries, as far as writing them out came before it failed. */
  ghost predicate IsPart(part: Entries, whole: Entries) {
    part.Keys <= whole.Keys && forall k <- part :: part[k] == whole[k]
  }

  // ----- reading a directory -----

  datatype Loaded = Loaded(entries: Entries, usedBytes: nat, schema: U32)

  const NOTHING_LOADED := Loaded(map[], 0, 0)

  /** One decoded entry added to what was read so far; the first entry of a key wins. */
  function Absorbed(c: Config, l: Loaded, key: Name, e: Entry): Option<Loaded> {
    var used := l.usedBytes + |e.value|;
    if !ValidKey(key, c.keyPrefix) || used > c.quotaBytes then None
    else
      Some(Loaded(
        if key in l.entries then l.entries else l.entries[key := e], used,
        if l.schema < e.schemaVersion then e.schemaVersion else l.schema))
  }

  /** Restoring reads every entry file and gives up at the first one that is damaged. */
  function RestoreStep(c: Config, l: Loaded, files: Files, name: Name): Option<Loaded> {
    if name !in files || !HasExtension(name) then Some(l)
    else
      match ReadEntry(files[name])
      case None => None
      case Some((key, e)) => Absorbed(c, l, key, e)
  }

  function RestoreAll(c: Config, l: Loaded, files: Files, order: seq<Name>): Option<Loaded>
    decreases |order|
  {
    if order == [] then Some(l)
    else
      match RestoreStep(c, l, files, order[0])
      case None => None
      case Some(next) => RestoreAll(c, next, files, order[1..])
  }

  /** Opening puts a damaged file aside instead. */
  datatype Opening = Opening(loaded: Loaded, files: Files, recovered: nat)

  function OpenStep(c: Config, o: Opening, name: Name): Option<Opening> {
    if name !in o.files || !HasExtension(name) then Some(o)
    else
      match ReadEntry(o.files[name])
      case None =>
        Some(o.(files := (o.files - {name})[name + CORRUPT_SUFFIX := o.files[name]], recovered := o.recovered + 1))
      case Some((key, e)) =>
        match Absorbed(c, o.loaded, key, e)
        case None => None
        case Some(l) => Some(o.(loaded := l))
  }

  function OpenAll(c: Config, o: Opening, order: seq<Name>): Option<Opening>
    decreases |order|
  {
    if order == [] then Some(o)
    else
      match OpenStep(c, o, order[0])
      case None => None
      case Some(next) => OpenAll(c, next, order[1..])
  }

  /** The order lists every file of the directory once. */
  predicate Lists(order: seq<Name>, files: Files) {
    && (forall i :: 0 <= i < |order| ==> order[i] in files)
    && (forall n :: n in files ==> n in order)
    && forall i, j :: 0 <= i < j < |order| ==> order[i] != order[j]
  }

  /** The store with the loaded entries, and with some of them written to its directory. */
  ghost function Replaced(s: Store, l: Loaded, written: Entries): Store {
    var s' := s.(entries := l.entries, config := s.config.(schemaVersion := l.schema));
    if s.filesystem then s'.(files := s.files + Printed(written)) else s'
  }

  ghost function RestoredFrom(s: Store, l: Loaded): Store {
    Flushed(s.(entries := l.entries, config := s.config.(schemaVersion := l.schema)))
  }

  // ----- reading one more file -----

  lemma {:induction false} OpenOneMore(c: Config, o: Opening, order: seq<Name>, name: Name)
    ensures OpenAll(c, o, order + [name]) ==
      if OpenAll(c, o, order).None? then None else OpenStep(c, OpenAll(c, o, order).value, name)
    decreases |order|
  {
    hide OpenStep;
    if order == [] {
      assert [name][1..] == [];
      assert order + [name] == [name];
    } else {
      assert (order + [name])[0] == order[0] && (order + [name])[1..] == order[1..] + [name];
      if OpenStep(c, o, order[0]).Some? {
        OpenOneMore(c, OpenStep(c, o, order[0]).value, order[1..], name);
      }
    }
  }

  lemma {:induction false} OpenStaysFailed(c: Config, o: Opening, order: seq<Name>, rest: seq<Name>)
    requires OpenAll(c, o, order).None?
    ensures OpenAll(c, o, order + rest).None?
    decreases |order|
  {
    hide OpenStep;
    assert (order + rest)[0] == order[0] && (order + rest)[1..] == order[1..] + rest;
    if OpenStep(c, o, order[0]).Some? {
      OpenStaysFailed(c, OpenStep(c, o, order[0]).value, order[1..], rest);
    }
  }

  lemma {:induction false} RestoreOneMore(c: Config, l: Loaded, files: Files, order: seq<Name>, name: Name)
    ensures RestoreAll(c, l, files, order + [name]) ==
      if RestoreAll(c, l, files, order).None? then None
      else RestoreStep(c, RestoreAll(c, l, files, order).value, files, name)
    decreases |order|
  {
    hide RestoreStep;
    if order == [] {
      assert [name][1..] == [];
      assert order + [name] == [name];
    } else {
      assert (order + [name])[0] == order[0] && (order + [name])[1..] == order[1..] + [name];
      if RestoreStep(c, l, files, order[0]).Some? {
        RestoreOneMore(c, RestoreStep(c, l, files, order[0]).value, files, order[1..], name);
      }
    }
  }

  lemma {:induction false} RestoreStaysFailed(
    c: Config, l: Loaded, files: Files, order: seq<Name>, rest: seq<Name>)
    requires RestoreAll(c, l, files, order).None?
    ensures RestoreAll(c, l, files, order + rest).None?
    decreases |order|
  {
    hide RestoreStep;
    assert (order + rest)[0] == order[0] && (order + rest)[1..] == order[1..] + rest;
    if RestoreStep(c, l, files, order[0]).Some? {
      RestoreStaysFailed(c, RestoreStep(c, l, files, order[0]).value, files, order[1..], rest);
    }
  }
}
