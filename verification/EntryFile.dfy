/** The self-describing file of one stored entry: its name, its text header and its parser. */
module EntryFile {
  import opened Bytes
  import opened ServiceTypes
  import opened Decimals
  import opened StreamChecksum

  const NEWLINE: Byte := 0x0A
  const FILE_MAGIC: Name := [0x4F, 0x41, 0x4B, 0x56, 0x31]
  const SCHEMA_PREFIX: Name := [0x73, 0x63, 0x68, 0x65, 0x6D, 0x61, 0x3D]
  const KEY_PREFIX: Name := [0x6B, 0x65, 0x79, 0x3D]
  const SIZE_PREFIX: Name := [0x73, 0x69, 0x7A, 0x65, 0x3D]
  const CHECKSUM_PREFIX: Name := [0x63, 0x68, 0x65, 0x63, 0x6B, 0x73, 0x75, 0x6D, 0x3D]
  const EXTENSION: Name := [0x2E, 0x6F, 0x61, 0x6B, 0x76]

  datatype Entry = Entry(schemaVersion: U32, value: seq<Byte>, checksum: U32)

  // ----- lines -----

  predicate NoNewline(s: Name) {
    forall i :: 0 <= i < |s| ==> s[i] != NEWLINE
  }

  function LineLength(b: seq<Byte>): (n: nat)
    ensures n <= |b|
    ensures forall i :: 0 <= i < n ==> b[i] != NEWLINE
    ensures n < |b| ==> b[n] == NEWLINE
  {
    if b == [] || b[0] == NEWLINE then 0 else 1 + LineLength(b[1..])
  }

  /** The first newline-terminated line, and what follows it. */
  function FirstLine(b: seq<Byte>): Option<(Name, seq<Byte>)> {
    var n := LineLength(b);
    if n == |b| then None else Some((b[..n], b[n + 1..]))
  }

  lemma FirstLineOf(line: Name, rest: seq<Byte>)
    requires NoNewline(line)
    ensures FirstLine(line + [NEWLINE] + rest) == Some((line, rest))
  {
    var b := line + [NEWLINE] + rest;
    assert b[|line|] == NEWLINE;
    assert forall i :: 0 <= i < |line| ==> b[i] == line[i];
    assert LineLength(b) == |line|;
    assert b[..|line|] == line && b[|line| + 1..] == rest;
  }

  /** The lines of the text header. */
  function Lines(b: seq<Byte>, n: nat): Option<(seq<Name>, seq<Byte>)>
    decreases n
  {
    if n == 0 then Some(([], b))
    else
      match FirstLine(b)
      case None => None
      case Some((line, rest)) =>
        match Lines(rest, n - 1)
        case None => None
        case Some((lines, end)) => Some(([line] + lines, end))
  }

  function Joined(lines: seq<Name>, end: seq<Byte>): seq<Byte> {
    if lines == [] then end else lines[0] + [NEWLINE] + Joined(lines[1..], end)
  }

  lemma {:induction false} LinesOfJoined(lines: seq<Name>, end: seq<Byte>)
    requires forall i :: 0 <= i < |lines| ==> NoNewline(lines[i])
    ensures Lines(Joined(lines, end), |lines|) == Some((lines, end))
    decreases |lines|
  {
    hide FirstLine, NoNewline;
    if lines != [] {
      FirstLineOf(lines[0], Joined(lines[1..], end));
      LinesOfJoined(lines[1..], end);
      assert [lines[0]] + lines[1..] == lines;
    }
  }

  // ----- printing and parsing an entry -----

  function HeaderLines(key: Name, e: Entry): (lines: seq<Name>)
    ensures |lines| == 6
  {
    [FILE_MAGIC,
     SCHEMA_PREFIX + Decimal(e.schemaVersion),
     KEY_PREFIX + key,
     SIZE_PREFIX + Decimal(|e.value|),
     CHECKSUM_PREFIX + Decimal(e.checksum),
     []]
  }

  function PrintEntry(key: Name, e: Entry): seq<Byte> {
    Joined(HeaderLines(key, e), e.value)
  }

  function FieldValue(line: Name, prefix: Name): Option<Name> {
    if prefix <= line then Some(line[|prefix|..]) else None
  }

  function ParseHeader(lines: seq<Name>, value: seq<Byte>): Option<(Name, Entry)>
    requires |lines| == 6
  {
    if lines[0] != FILE_MAGIC || lines[5] != [] then None
    else
      match (FieldValue(lines[1], SCHEMA_PREFIX), FieldValue(lines[2], KEY_PREFIX),
             FieldValue(lines[3], SIZE_PREFIX), FieldValue(lines[4], CHECKSUM_PREFIX))
      case (Some(schemaText), Some(key), Some(sizeText), Some(checksumText)) =>
        (match (ParseBelow(U32_MODULUS, schemaText), ParseBelow(U64_MODULUS, sizeText),
                 ParseBelow(U32_MODULUS, checksumText))
         case (Some(schema), Some(size), Some(checksum)) =>
           if |value| != size || Checksum(value) != checksum then None else Some((key, Entry(schema, value, checksum)))
         case _ => None)
      case _ => None
  }

  lemma {:induction false} LineCount(b: seq<Byte>, n: nat)
    ensures Lines(b, n).Some? ==> |Lines(b, n).value.0| == n
    decreases n
  {
    if n > 0 && FirstLine(b).Some? {
      LineCount(FirstLine(b).value.1, n - 1);
    }
  }

  function ReadEntry(file: seq<Byte>): Option<(Name, Entry)> {
    match Lines(file, 6)
    case None => None
    case Some((lines, value)) =>
      LineCount(file, 6);
      ParseHeader(lines, value)
  }

  lemma FieldOf(prefix: Name, text: Name)
    ensures FieldValue(prefix + text, prefix) == Some(text)
  {
  }

  lemma DigitsHaveNoNewline(prefix: Name, n: nat)
    requires NoNewline(prefix)
    ensures NoNewline(prefix + Decimal(n))
  {
    hide Decimal;
    DecimalIsDigits(n);
  }

  /** An entry's file reads back as its key and entry. */
  lemma EntryRoundTrip(key: Name, e: Entry)
    requires NoNewline(key) && |e.value| < U64_MODULUS && e.checksum == Checksum(e.value)
    ensures ReadEntry(PrintEntry(key, e)) == Some((key, e))
  {
    hide Decimal, Checksum, Lines, ParseBelow, FieldValue, Joined;
    DigitsHaveNoNewline(SCHEMA_PREFIX, e.schemaVersion);
    DigitsHaveNoNewline(SIZE_PREFIX, |e.value|);
    DigitsHaveNoNewline(CHECKSUM_PREFIX, e.checksum);
    LinesOfJoined(HeaderLines(key, e), e.value);
    FieldOf(SCHEMA_PREFIX, Decimal(e.schemaVersion));
    FieldOf(KEY_PREFIX, key);
    FieldOf(SIZE_PREFIX, Decimal(|e.value|));
    FieldOf(CHECKSUM_PREFIX, Decimal(e.checksum));
    DecimalRoundTrip(e.schemaVersion, U32_MODULUS);
    DecimalRoundTrip(|e.value|, U64_MODULUS);
    DecimalRoundTrip(e.checksum, U32_MODULUS);
  }

  /** Conversely what is read from a file carries its own checksum. */
  lemma ReadEntryIsSealed(file: seq<Byte>)
    requires ReadEntry(file).Some?
    ensures ReadEntry(file).value.1.checksum == Checksum(ReadEntry(file).value.1.value)
  {
    hide Checksum, Lines, ParseBelow, FieldValue;
    LineCount(file, 6);
  }

  // ----- file names -----

  function HexDigit(d: nat): Byte
    requires d < 16
  {
    if d < 10 then 0x30 + d else 0x61 + d - 10
  }

  function Hex(key: Name): (s: Name)
    ensures |s| == 2 * |key|
  {
    if key == [] then [] else [HexDigit(key[0] / 16), HexDigit(key[0] % 16)] + Hex(key[1..])
  }

  function EncodedFileName(key: Name): Name {
    Hex(key) + EXTENSION
  }

  predicate HasExtension(name: Name) {
    |name| > |EXTENSION| && name[|name| - |EXTENSION|..] == EXTENSION
  }

  lemma {:induction false} HexIsInjective(a: Name, b: Name)
    requires Hex(a) == Hex(b)
    ensures a == b
    decreases |a|
  {
    if a != [] {
      assert Hex(a)[0] == Hex(b)[0] && Hex(a)[1] == Hex(b)[1];
      assert Hex(a)[2..] == Hex(a[1..]) && Hex(b)[2..] == Hex(b[1..]);
      HexIsInjective(a[1..], b[1..]);
      assert a[0] / 16 == b[0] / 16 && a[0] % 16 == b[0] % 16;
      assert a == [a[0]] + a[1..] && b == [b[0]] + b[1..];
    } else {
      assert |b| == 0;
    }
  }

  /** Different keys are kept in different files. */
  lemma FileNameIsInjective(a: Name, b: Name)
    ensures EncodedFileName(a) == EncodedFileName(b) <==> a == b
  {
    hide Hex;
    if EncodedFileName(a) == EncodedFileName(b) {
      assert Hex(a) == EncodedFileName(a)[..2 * |a|] && Hex(b) == EncodedFileName(b)[..2 * |b|];
      HexIsInjective(a, b);
    }
  }

  lemma EntryFileIsRecognised(key: Name)
    requires key != []
    ensures HasExtension(EncodedFileName(key))
  {
    var name := EncodedFileName(key);
    assert name[|name| - |EXTENSION|..] == EXTENSION;
  }
}
