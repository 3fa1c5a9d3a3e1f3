/**
 RTPS messages on the wire: DATA, HEARTBEAT and ACKNACK submessages of OMG DDSI-RTPS 2.2
 (sections 9.4.2.6, 9.4.5.2, 9.4.5.3 and 9.4.5.6), little-endian only.
 */
module RtpsMessage {
  import opened Bytes
  import opened Words
  import opened Ascending
  import opened AckNackBitmap

  type VendorId = v: seq<Byte> | |v| == 2 witness [0x4F, 0x41]
  type GuidPrefix = g: seq<Byte> | |g| == 12 witness seq(12, _ => 0)
  type EntityId = e: seq<Byte> | |e| == 4 witness [0, 0, 0, 0]

  const NO_ENTITY: EntityId := [0, 0, 0, 0]

  const MAGIC: seq<Byte> := [0x52, 0x54, 0x50, 0x53]
  const VERSION_MAJOR: Byte := 2
  const VERSION_MINOR: Byte := 3
  const DATA_KIND: Byte := 0x15
  const HEARTBEAT_KIND: Byte := 0x07
  const ACKNACK_KIND: Byte := 0x06
  const LITTLE_ENDIAN_FLAG: Byte := 1
  const FINAL_FLAG: Byte := 2
  const DATA_PAYLOAD_FLAG: Byte := 4
  const LIVELINESS_FLAG: Byte := 4
  const OCTETS_TO_INLINE_QOS: U16 := 16
  const RTPS_HEADER_SIZE: nat := 20
  const SUBMESSAGE_HEADER_SIZE: nat := 4
  const DATA_BODY_HEADER_SIZE: nat := 20
  const HEARTBEAT_BODY_SIZE: nat := 28
  const ACKNACK_BODY_HEADER_SIZE: nat := 24
  const MAX_UDP_PAYLOAD_SIZE: nat := 1400
  const MAX_SUBMESSAGE_LENGTH: nat := 0xFFFF

  datatype DataSubmessage = DataSubmessage(
    readerId: EntityId,
    writerId: EntityId,
    writerSequenceNumber: U64,
    serializedPayload: seq<Byte>)

  datatype HeartbeatSubmessage = HeartbeatSubmessage(
    readerId: EntityId,
    writerId: EntityId,
    firstSequenceNumber: U64,
    lastSequenceNumber: U64,
    count: U32,
    finalFlag: bool,
    livelinessFlag: bool)

  datatype AckNackSubmessage = AckNackSubmessage(
    readerId: EntityId,
    writerId: EntityId,
    bitmapBase: U64,
    missingSequenceNumbers: seq<U64>,
    count: U32,
    finalFlag: bool)

  datatype Message = Message(
    vendorId: VendorId,
    guidPrefix: GuidPrefix,
    data: seq<DataSubmessage>,
    heartbeats: seq<HeartbeatSubmessage>,
    acknacks: seq<AckNackSubmessage>)

  /** A submessage of any kind; a message prints its DATA first, then HEARTBEATs, then ACKNACKs. */
  datatype Submessage =
    | Data(data: DataSubmessage)
    | Heartbeat(heartbeat: HeartbeatSubmessage)
    | AckNack(acknack: AckNackSubmessage)

  function DataList(data: seq<DataSubmessage>): (subs: seq<Submessage>) {
    seq(|data|, i requires 0 <= i < |data| => Data(data[i]))
  }

  function HeartbeatList(heartbeats: seq<HeartbeatSubmessage>): (subs: seq<Submessage>) {
    seq(|heartbeats|, i requires 0 <= i < |heartbeats| => Heartbeat(heartbeats[i]))
  }

  function AckNackList(acknacks: seq<AckNackSubmessage>): (subs: seq<Submessage>) {
    seq(|acknacks|, i requires 0 <= i < |acknacks| => AckNack(acknacks[i]))
  }

  function Submessages(m: Message): seq<Submessage> {
    DataList(m.data) + HeartbeatList(m.heartbeats) + AckNackList(m.acknacks)
  }

  predicate HasAnySubmessage(m: Message) {
    m.data != [] || m.heartbeats != [] || m.acknacks != []
  }

  // ----- sizes -----

  function SizeOf(s: Submessage): nat {
    match s
    case Data(d) => SUBMESSAGE_HEADER_SIZE + DATA_BODY_HEADER_SIZE + |d.serializedPayload|
    case Heartbeat(_) => SUBMESSAGE_HEADER_SIZE + HEARTBEAT_BODY_SIZE
    case AckNack(a) => SUBMESSAGE_HEADER_SIZE + ACKNACK_BODY_HEADER_SIZE + 4 * AnnouncedWords(a)
  }

  /** The number of bitmap words the size computation reckons with. */
  function AnnouncedWords(a: AckNackSubmessage): nat {
    if a.bitmapBase == 0 || a.missingSequenceNumbers == [] || Largest(a.missingSequenceNumbers) < a.bitmapBase then 0
    else WordCount(Largest(a.missingSequenceNumbers) - a.bitmapBase + 1)
  }

  function TotalSize(subs: seq<Submessage>): nat {
    if subs == [] then 0 else TotalSize(subs[..|subs| - 1]) + SizeOf(subs[|subs| - 1])
  }

  predicate FitsUdpPayload(m: Message) {
    RTPS_HEADER_SIZE + TotalSize(Submessages(m)) <= MAX_UDP_PAYLOAD_SIZE
  }

  // ----- sizes in 64-bit arithmetic -----

  /** The number of bitmap words as the code reckons it: the rounding may wrap. */
  function ReckonedWords(a: AckNackSubmessage): nat {
    if a.bitmapBase == 0 || a.missingSequenceNumbers == [] || Largest(a.missingSequenceNumbers) < a.bitmapBase then 0
    else (Largest(a.missingSequenceNumbers) - a.bitmapBase + 1 + 31) % U64_MODULUS / 32
  }

  function ReckonedSizeOf(s: Submessage): nat {
    match s
    case AckNack(a) => SUBMESSAGE_HEADER_SIZE + ACKNACK_BODY_HEADER_SIZE + 4 * ReckonedWords(a)
    case _ => SizeOf(s)
  }

  function ReckonedTotal(subs: seq<Submessage>): nat {
    if subs == [] then 0 else ReckonedTotal(subs[..|subs| - 1]) + ReckonedSizeOf(subs[|subs| - 1])
  }

  function ReckonedSize(m: Message): U64 {
    (RTPS_HEADER_SIZE + ReckonedTotal(Submessages(m))) % U64_MODULUS
  }

  // ----- serializing -----

  function PutSequenceNumber(v: U64): (b: seq<Byte>)
    ensures |b| == 8
  {
    PutU32Le(v / U32_MODULUS) + PutU32Le(v % U32_MODULUS)
  }

  function GetSequenceNumber(b: seq<Byte>, at: nat): U64
    requires at + 8 <= |b|
  {
    GetU32Le(b, at) as int * U32_MODULUS + GetU32Le(b, at + 4)
  }

  lemma ReadSequenceNumber(b: seq<Byte>, at: nat, v: U64)
    requires at + 8 <= |b| && b[at..at + 8] == PutSequenceNumber(v)
    ensures GetSequenceNumber(b, at) == v
  {
    hide PutU32Le, GetU32Le;
    var f := b[at..at + 8];
    assert b[at..at + 4] == f[..4] && b[at + 4..at + 8] == f[4..];
    ReadU32Le(b, at, v / U32_MODULUS);
    ReadU32Le(b, at + 4, v % U32_MODULUS);
  }

  predicate ValidRange(first: U64, last: U64) {
    first != 0 && last != 0 && first <= last
  }

  /** What the serializer insists on. */
  predicate SubmessageOk(s: Submessage) {
    match s
    case Data(d) =>
      && d.writerSequenceNumber != 0
      && d.serializedPayload != []
      && DATA_BODY_HEADER_SIZE + |d.serializedPayload| <= MAX_SUBMESSAGE_LENGTH
    case Heartbeat(h) => ValidRange(h.firstSequenceNumber, h.lastSequenceNumber) && h.count != 0
    case AckNack(a) => a.bitmapBase != 0 && a.count != 0 && BitmapOf(a.bitmapBase, a.missingSequenceNumbers).Some?
  }

  function KindOf(s: Submessage): Byte {
    match s
    case Data(_) => DATA_KIND
    case Heartbeat(_) => HEARTBEAT_KIND
    case AckNack(_) => ACKNACK_KIND
  }

  function FlagsOf(s: Submessage): Byte {
    match s
    case Data(_) => 5
    case Heartbeat(h) => 1 + (if h.finalFlag then 2 else 0) + if h.livelinessFlag then 4 else 0
    case AckNack(a) => 1 + if a.finalFlag then 2 else 0
  }

  function DataBody(d: DataSubmessage): (b: seq<Byte>)
    ensures |b| == DATA_BODY_HEADER_SIZE + |d.serializedPayload|
  {
    PutU16Le(0) + PutU16Le(OCTETS_TO_INLINE_QOS) + d.readerId + d.writerId
    + PutSequenceNumber(d.writerSequenceNumber) + d.serializedPayload
  }

  function HeartbeatBody(h: HeartbeatSubmessage): (b: seq<Byte>)
    ensures |b| == HEARTBEAT_BODY_SIZE
  {
    h.readerId + h.writerId + PutSequenceNumber(h.firstSequenceNumber)
    + PutSequenceNumber(h.lastSequenceNumber) + PutU32Le(h.count)
  }

  function AckNackBody(a: AckNackSubmessage, bitmap: Bitmap): (b: seq<Byte>)
    requires bitmap.numBits < U32_MODULUS
    ensures |b| == ACKNACK_BODY_HEADER_SIZE + 4 * |bitmap.words|
  {
    a.readerId + a.writerId + PutSequenceNumber(a.bitmapBase) + PutU32Le(bitmap.numBits)
    + WordBytes(bitmap.words) + PutU32Le(a.count)
  }

  function BodyOf(s: Submessage): (b: seq<Byte>)
    requires SubmessageOk(s)
    ensures |b| <= MAX_SUBMESSAGE_LENGTH
    ensures SizeOf(s) == SUBMESSAGE_HEADER_SIZE + |b|
  {
    match s
    case Data(d) => DataBody(d)
    case Heartbeat(h) => HeartbeatBody(h)
    case AckNack(a) =>
      BitmapLength(a.bitmapBase, a.missingSequenceNumbers);
      AckNackBody(a, BitmapOf(a.bitmapBase, a.missingSequenceNumbers).value)
  }

  lemma BitmapLength(base: U64, missing: seq<U64>)
    requires BitmapOf(base, missing).Some?
    ensures var b := BitmapOf(base, missing).value;
      && b.numBits <= MAX_BITMAP_BITS && |b.words| == WordCount(b.numBits)
      && b.numBits == if missing == [] then 0 else Largest(missing) - base + 1
  {
    if missing != [] {
      LastIsLargest(missing);
    }
  }

  function SubmessageBytes(s: Submessage): (b: seq<Byte>)
    requires SubmessageOk(s)
    ensures |b| == SizeOf(s)
  {
    [KindOf(s), FlagsOf(s)] + PutU16Le(|BodyOf(s)|) + BodyOf(s)
  }

  predicate AllOk(subs: seq<Submessage>) {
    forall i :: 0 <= i < |subs| ==> SubmessageOk(subs[i])
  }

  function AllBytes(subs: seq<Submessage>): (b: seq<Byte>)
    requires AllOk(subs)
    ensures |b| == TotalSize(subs)
  {
    if subs == [] then [] else AllBytes(subs[..|subs| - 1]) + SubmessageBytes(subs[|subs| - 1])
  }

  function HeaderBytes(m: Message): (b: seq<Byte>)
    ensures |b| == RTPS_HEADER_SIZE
  {
    MAGIC + [VERSION_MAJOR, VERSION_MINOR] + m.vendorId + m.guidPrefix
  }

  function Serialized(m: Message): Option<seq<Byte>> {
    if HasAnySubmessage(m) && m.vendorId != [0, 0] && FitsUdpPayload(m) && AllOk(Submessages(m)) then
      Some(HeaderBytes(m) + AllBytes(Submessages(m)))
    else None
  }

  /** What the serializer returns: the same, with the size reckoned in 64-bit arithmetic. */
  function SerializedAsReckoned(m: Message): Option<seq<Byte>> {
    if HasAnySubmessage(m) && m.vendorId != [0, 0] && ReckonedSize(m) <= MAX_UDP_PAYLOAD_SIZE
       && AllOk(Submessages(m))
    then Some(HeaderBytes(m) + AllBytes(Submessages(m)))
    else None
  }

  /** If the message can be printed at all, its octets can be counted in 64 bits. */
  predicate Addressable(m: Message) {
    AllOk(Submessages(m)) ==> RTPS_HEADER_SIZE + TotalSize(Submessages(m)) < U64_MODULUS
  }

  lemma OkIsReckonedExactly(s: Submessage)
    requires SubmessageOk(s)
    ensures ReckonedSizeOf(s) == SizeOf(s)
  {
    hide WordsOf, AllFrom, SortUnique;
    if s.AckNack? {
      BitmapLength(s.acknack.bitmapBase, s.acknack.missingSequenceNumbers);
    }
  }

  lemma {:induction false} OkTotalIsExact(subs: seq<Submessage>)
    requires AllOk(subs)
    ensures ReckonedTotal(subs) == TotalSize(subs)
    decreases |subs|
  {
    hide SubmessageOk, SizeOf, ReckonedSizeOf;
    if subs != [] {
      OkTotalIsExact(subs[..|subs| - 1]);
      OkIsReckonedExactly(subs[|subs| - 1]);
    }
  }

  /** A wrap of the size computation never shows: only a message that is refused anyway is reckoned wrongly. */
  lemma ReckoningIsExact(m: Message)
    requires Addressable(m)
    ensures SerializedAsReckoned(m) == Serialized(m)
    ensures AllOk(Submessages(m)) ==> ReckonedSize(m) == RTPS_HEADER_SIZE + TotalSize(Submessages(m))
  {
    hide AllOk, TotalSize, ReckonedTotal, AllBytes, Submessages, HeaderBytes;
    if AllOk(Submessages(m)) {
      OkTotalIsExact(Submessages(m));
    }
  }

  /** A span of 2^64 - 1 numbers is reckoned to need no bitmap word. */
  lemma WidestSpanIsReckonedEmpty(a: AckNackSubmessage)
    requires a.bitmapBase == 1 && a.missingSequenceNumbers == [U64_MODULUS - 1]
    ensures ReckonedWords(a) == 0 && AnnouncedWords(a) == 0x800_0000_0000_0000
    ensures !SubmessageOk(AckNack(a))
  {
    LastIsLargest(a.missingSequenceNumbers);
  }

  // ----- parsing -----

  predicate FlagSet(flags: Byte, mask: nat)
    requires mask > 0
  {
    flags / mask % 2 == 1
  }

  function DataIn(flags: Byte, body: seq<Byte>): Option<Submessage> {
    if !FlagSet(flags, DATA_PAYLOAD_FLAG) || |body| <= DATA_BODY_HEADER_SIZE then None
    else if GetU16Le(body, 0) != 0 || GetU16Le(body, 2) != OCTETS_TO_INLINE_QOS then None
    else
      var sequenceNumber := GetSequenceNumber(body, 12);
      if sequenceNumber == 0 then None
      else Some(Data(DataSubmessage(body[4..8], body[8..12], sequenceNumber, body[20..])))
  }

  function HeartbeatIn(flags: Byte, body: seq<Byte>): Option<Submessage> {
    if |body| != HEARTBEAT_BODY_SIZE then None
    else
      var first, last := GetSequenceNumber(body, 8), GetSequenceNumber(body, 16);
      var count := GetU32Le(body, 24);
      if !ValidRange(first, last) || count == 0 then None
      else
        Some(Heartbeat(HeartbeatSubmessage(
          body[0..4], body[4..8], first, last, count,
          FlagSet(flags, FINAL_FLAG), FlagSet(flags, LIVELINESS_FLAG))))
  }

  function AckNackIn(flags: Byte, body: seq<Byte>): Option<Submessage> {
    if |body| < ACKNACK_BODY_HEADER_SIZE || (|body| - ACKNACK_BODY_HEADER_SIZE) % 4 != 0 then None
    else
      var base, numBits := GetSequenceNumber(body, 8), GetU32Le(body, 16);
      if base == 0 || numBits > MAX_BITMAP_BITS then None
      else if |body| != ACKNACK_BODY_HEADER_SIZE + 4 * WordCount(numBits) then None
      else
        var count := GetU32Le(body, 20 + 4 * WordCount(numBits));
        if count == 0 then None
        else
          Some(AckNack(AckNackSubmessage(
            body[0..4], body[4..8], base, MissingIn(base, body[20..], numBits), count, FlagSet(flags, FINAL_FLAG))))
  }

  function SubmessageIn(kind: Byte, flags: Byte, body: seq<Byte>): Option<Submessage> {
    if kind == DATA_KIND then DataIn(flags, body)
    else if kind == HEARTBEAT_KIND then HeartbeatIn(flags, body)
    else if kind == ACKNACK_KIND then AckNackIn(flags, body)
    else None
  }

  /** The first submessage of a non-empty rest of a message, and the octets it takes. */
  function FirstSubmessage(b: seq<Byte>): (r: Option<(Submessage, nat)>)
    ensures r.Some? ==> SUBMESSAGE_HEADER_SIZE <= r.value.1 <= |b|
  {
    if |b| < SUBMESSAGE_HEADER_SIZE || !FlagSet(b[1], LITTLE_ENDIAN_FLAG) then None
    else
      var next := SUBMESSAGE_HEADER_SIZE + GetU16Le(b, 2);
      if next > |b| then None
      else
        match SubmessageIn(b[0], b[1], b[SUBMESSAGE_HEADER_SIZE..next])
        case None => None
        case Some(s) => Some((s, next))
  }

  function Added(m: Message, s: Submessage): Message {
    match s
    case Data(d) => m.(data := m.data + [d])
    case Heartbeat(h) => m.(heartbeats := m.heartbeats + [h])
    case AckNack(a) => m.(acknacks := m.acknacks + [a])
  }

  function ParsedFrom(m: Message, b: seq<Byte>): Option<Message>
    decreases |b|
  {
    if b == [] then Some(m)
    else
      match FirstSubmessage(b)
      case None => None
      case Some((s, next)) => ParsedFrom(Added(m, s), b[next..])
  }

  function EmptyMessage(bytes: seq<Byte>): Message
    requires RTPS_HEADER_SIZE <= |bytes|
  {
    Message(bytes[6..8], bytes[8..20], [], [], [])
  }

  function Parsed(bytes: seq<Byte>): Option<Message> {
    if |bytes| < RTPS_HEADER_SIZE || bytes[..4] != MAGIC then None
    else if bytes[4] != VERSION_MAJOR || bytes[5] != VERSION_MINOR || bytes[6..8] == [0, 0] then None
    else
      match ParsedFrom(EmptyMessage(bytes), bytes[RTPS_HEADER_SIZE..])
      case None => None
      case Some(m) => if HasAnySubmessage(m) then Some(m) else None
  }
}
