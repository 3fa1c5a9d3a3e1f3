/** Which octets are an RTPS message, stated by what each submessage looks like on the wire. */
module RtpsGrammar {
  import opened Bytes
  import opened Ascending
  import opened AckNackBitmap
  import opened RtpsMessage
  import opened RtpsRoundTrip

  // ----- one submessage on the wire -----

  /** The flags of a little-endian submessage; other bits than those of its kind do not matter. */
  predicate Flag(flags: Byte, mask: nat)
    requires mask > 0
  {
    flags / mask % 2 == 1
  }

  /** A kind, its flags, the length of the body, and the body. */
  function Framed(kind: Byte, flags: Byte, body: seq<Byte>): seq<Byte>
    requires |body| < 0x1_0000
  {
    [kind, flags] + PutU16Le(|body|) + body
  }

  function DataOctets(d: DataSubmessage): seq<Byte> {
    [0, 0, 16, 0] + d.readerId + d.writerId + PutSequenceNumber(d.writerSequenceNumber) + d.serializedPayload
  }

  function HeartbeatOctets(h: HeartbeatSubmessage): seq<Byte> {
    h.readerId + h.writerId + PutSequenceNumber(h.firstSequenceNumber) + PutSequenceNumber(h.lastSequenceNumber)
    + PutU32Le(h.count)
  }

  function AckNackOctets(a: AckNackSubmessage, numBits: U32, bitmap: seq<Byte>): seq<Byte> {
    a.readerId + a.writerId + PutSequenceNumber(a.bitmapBase) + PutU32Le(numBits) + bitmap + PutU32Le(a.count)
  }

  predicate IsData(flags: Byte, body: seq<Byte>, d: DataSubmessage) {
    Flag(flags, 4) && d.writerSequenceNumber > 0 && d.serializedPayload != [] && body == DataOctets(d)
  }

  predicate IsHeartbeat(flags: Byte, body: seq<Byte>, h: HeartbeatSubmessage) {
    && 1 <= h.firstSequenceNumber <= h.lastSequenceNumber && h.count > 0 && body == HeartbeatOctets(h)
    && h.finalFlag == Flag(flags, 2) && h.livelinessFlag == Flag(flags, 4)
  }

  /** Bits of the last bitmap word behind `numBits` do not matter. */
  ghost predicate IsAckNack(flags: Byte, body: seq<Byte>, a: AckNackSubmessage) {
    && a.bitmapBase > 0 && a.count > 0 && a.finalFlag == Flag(flags, 2)
    && exists numBits: U32, bitmap: seq<Byte> :: IsBitmapped(body, a, numBits, bitmap)
  }

  predicate IsBitmapped(body: seq<Byte>, a: AckNackSubmessage, numBits: U32, bitmap: seq<Byte>) {
    && numBits <= 256 && |bitmap| == 4 * ((numBits + 31) / 32) && body == AckNackOctets(a, numBits, bitmap)
    && a.missingSequenceNumbers == MissingIn(a.bitmapBase, bitmap, numBits)
  }

  ghost predicate IsBody(kind: Byte, flags: Byte, body: seq<Byte>, s: Submessage) {
    match s
    case Data(d) => kind == 0x15 && IsData(flags, body, d)
    case Heartbeat(h) => kind == 0x07 && IsHeartbeat(flags, body, h)
    case AckNack(a) => kind == 0x06 && IsAckNack(flags, body, a)
  }

  ghost predicate IsSubmessage(b: seq<Byte>, s: Submessage) {
    exists kind: Byte, flags: Byte, body: seq<Byte> :: (
      |body| < 0x1_0000 && b == Framed(kind, flags, body) && Flag(flags, 1) && IsBody(kind, flags, body, s))
  }

  // ----- bodies -----

  lemma WriteSequenceNumber(b: seq<Byte>, at: nat)
    requires at + 8 <= |b|
    ensures PutSequenceNumber(GetSequenceNumber(b, at)) == b[at..at + 8]
  {
    hide PutU32Le, GetU32Le;
    WriteU32Le(b, at);
    WriteU32Le(b, at + 4);
    assert GetSequenceNumber(b, at) / U32_MODULUS == GetU32Le(b, at);
    assert GetSequenceNumber(b, at) % U32_MODULUS == GetU32Le(b, at + 4);
    assert b[at..at + 8] == b[at..at + 4] + b[at + 4..at + 8];
  }

  lemma FourOctets(b: seq<Byte>)
    requires |b| >= 4
    ensures GetU16Le(b, 0) == 0 && GetU16Le(b, 2) == 16 <==> b[..4] == [0, 0, 16, 0]
  {
    hide GetU16Le;
    WriteU16Le(b, 0);
    WriteU16Le(b, 2);
    assert b[..4] == b[0..2] + b[2..4];
    if b[..4] == [0, 0, 16, 0] {
      assert b[0..2] == b[..4][..2] && b[2..4] == b[..4][2..];
      ReadU16Le(b, 0, 0);
      ReadU16Le(b, 2, 16);
    }
  }

  lemma DataIsRead(flags: Byte, body: seq<Byte>, d: DataSubmessage)
    ensures DataIn(flags, body) == Some(Data(d)) <==> IsData(flags, body, d)
  {
    hide PutU32Le, GetU32Le, GetU16Le, PutSequenceNumber, GetSequenceNumber;
    if DataIn(flags, body) == Some(Data(d)) {
      FourOctets(body);
      WriteSequenceNumber(body, 12);
      assert body == body[..4] + body[4..8] + body[8..12] + body[12..20] + body[20..];
    }
    if IsData(flags, body, d) {
      assert body[..4] == [0, 0, 16, 0] && body[4..8] == d.readerId && body[8..12] == d.writerId;
      assert body[12..20] == PutSequenceNumber(d.writerSequenceNumber) && body[20..] == d.serializedPayload;
      FourOctets(body);
      ReadSequenceNumber(body, 12, d.writerSequenceNumber);
    }
  }

  lemma HeartbeatIsRead(flags: Byte, body: seq<Byte>, h: HeartbeatSubmessage)
    ensures HeartbeatIn(flags, body) == Some(Heartbeat(h)) <==> IsHeartbeat(flags, body, h)
  {
    hide PutU32Le, GetU32Le, PutSequenceNumber, GetSequenceNumber;
    if HeartbeatIn(flags, body) == Some(Heartbeat(h)) {
      WriteSequenceNumber(body, 8);
      WriteSequenceNumber(body, 16);
      WriteU32Le(body, 24);
      assert body == body[0..4] + body[4..8] + body[8..16] + body[16..24] + body[24..28];
    }
    if IsHeartbeat(flags, body, h) {
      assert body[0..4] == h.readerId && body[4..8] == h.writerId;
      assert body[8..16] == PutSequenceNumber(h.firstSequenceNumber);
      assert body[16..24] == PutSequenceNumber(h.lastSequenceNumber) && body[24..28] == PutU32Le(h.count);
      ReadSequenceNumber(body, 8, h.firstSequenceNumber);
      ReadSequenceNumber(body, 16, h.lastSequenceNumber);
      ReadU32Le(body, 24, h.count);
    }
  }

  lemma AckNackIsTaken(flags: Byte, body: seq<Byte>, a: AckNackSubmessage)
    requires AckNackIn(flags, body) == Some(AckNack(a))
    ensures IsAckNack(flags, body, a)
  {
    hide PutU32Le, GetU32Le, PutSequenceNumber, GetSequenceNumber, MissingIn;
    var numBits := GetU32Le(body, 16);
    var end := 20 + 4 * WordCount(numBits);
    var bitmap := body[20..end];
    WriteSequenceNumber(body, 8);
    WriteU32Le(body, 16);
    WriteU32Le(body, end);
    assert body == body[0..4] + body[4..8] + body[8..16] + body[16..20] + bitmap + body[end..end + 4];
    assert body[20..] == bitmap + body[end..];
    MissingInPrefix(a.bitmapBase, bitmap, body[end..], numBits);
    assert IsBitmapped(body, a, numBits, bitmap);
  }

  lemma AckNackIsGiven(flags: Byte, body: seq<Byte>, a: AckNackSubmessage)
    requires IsAckNack(flags, body, a)
    ensures AckNackIn(flags, body) == Some(AckNack(a))
  {
    hide PutU32Le, GetU32Le, PutSequenceNumber, GetSequenceNumber, MissingIn;
    var numBits: U32, bitmap: seq<Byte> :| IsBitmapped(body, a, numBits, bitmap);
    var end := 20 + 4 * WordCount(numBits);
    assert body[0..4] == a.readerId && body[4..8] == a.writerId;
    assert body[8..16] == PutSequenceNumber(a.bitmapBase) && body[16..20] == PutU32Le(numBits);
    assert body[20..] == bitmap + PutU32Le(a.count) && body[end..end + 4] == PutU32Le(a.count);
    ReadSequenceNumber(body, 8, a.bitmapBase);
    ReadU32Le(body, 16, numBits);
    ReadU32Le(body, end, a.count);
    MissingInPrefix(a.bitmapBase, bitmap, PutU32Le(a.count), numBits);
  }

  lemma BodyIsRead(kind: Byte, flags: Byte, body: seq<Byte>, s: Submessage)
    ensures SubmessageIn(kind, flags, body) == Some(s) <==> IsBody(kind, flags, body, s)
  {
    hide DataIn, HeartbeatIn, AckNackIn, IsData, IsHeartbeat, IsAckNack;
    KindsAreKept(flags, body);
    match s
    case Data(d) => DataIsRead(flags, body, d);
    case Heartbeat(h) => HeartbeatIsRead(flags, body, h);
    case AckNack(a) =>
      if AckNackIn(flags, body) == Some(AckNack(a)) {
        AckNackIsTaken(flags, body, a);
      }
      if IsAckNack(flags, body, a) {
        AckNackIsGiven(flags, body, a);
      }
  }

  lemma KindsAreKept(flags: Byte, body: seq<Byte>)
    ensures DataIn(flags, body).Some? ==> DataIn(flags, body).value.Data?
    ensures HeartbeatIn(flags, body).Some? ==> HeartbeatIn(flags, body).value.Heartbeat?
    ensures AckNackIn(flags, body).Some? ==> AckNackIn(flags, body).value.AckNack?
  {
  }

  // ----- a submessage and what follows it -----

  lemma FrameIsRead(b: seq<Byte>, n: nat)
    requires SUBMESSAGE_HEADER_SIZE <= n <= |b| && n == SUBMESSAGE_HEADER_SIZE + GetU16Le(b, 2)
    ensures b[..n] == Framed(b[0], b[1], b[SUBMESSAGE_HEADER_SIZE..n])
  {
    hide PutU16Le, GetU16Le;
    WriteU16Le(b, 2);
    assert b[..n] == [b[0], b[1]] + b[2..4] + b[4..n];
  }

  lemma FrameIsGiven(b: seq<Byte>, n: nat, kind: Byte, flags: Byte, body: seq<Byte>)
    requires n <= |b| && |body| < 0x1_0000 && b[..n] == Framed(kind, flags, body)
    ensures SUBMESSAGE_HEADER_SIZE <= n && n == SUBMESSAGE_HEADER_SIZE + GetU16Le(b, 2)
    ensures b[0] == kind && b[1] == flags && b[SUBMESSAGE_HEADER_SIZE..n] == body
  {
    hide PutU16Le, GetU16Le;
    var frame := b[..n];
    assert b[0] == frame[0] && b[1] == frame[1];
    assert b[2..4] == frame[2..4] == PutU16Le(|body|);
    assert b[4..n] == frame[4..] == body;
    ReadU16Le(b, 2, |body|);
  }

  /** The first submessage read is the one, of whatever length, that stands at the beginning. */
  lemma SubmessageIsRead(b: seq<Byte>, s: Submessage, n: nat)
    ensures FirstSubmessage(b) == Some((s, n)) <==> n <= |b| && IsSubmessage(b[..n], s)
  {
    hide GetU16Le, SubmessageIn, IsBody, Framed;
    if FirstSubmessage(b) == Some((s, n)) {
      var body := b[SUBMESSAGE_HEADER_SIZE..n];
      FrameIsRead(b, n);
      BodyIsRead(b[0], b[1], body, s);
      assert |body| < 0x1_0000 && b[..n] == Framed(b[0], b[1], body);
    }
    if n <= |b| && IsSubmessage(b[..n], s) {
      var kind: Byte, flags: Byte, body: seq<Byte> :|
        |body| < 0x1_0000 && b[..n] == Framed(kind, flags, body) && Flag(flags, 1) && IsBody(kind, flags, body, s);
      FrameIsGiven(b, n, kind, flags, body);
      BodyIsRead(kind, flags, body, s);
    }
  }

  // ----- messages -----

  /** The octets are the submessages, one after the other. */
  ghost predicate AreSubmessages(b: seq<Byte>, subs: seq<Submessage>)
    decreases |subs|
  {
    if subs == [] then b == []
    else exists n: nat :: IsSplitAt(b, subs[0], n) && AreSubmessages(b[n..], subs[1..])
  }

  ghost predicate IsSplitAt(b: seq<Byte>, s: Submessage, n: nat) {
    n <= |b| && IsSubmessage(b[..n], s)
  }

  function DataOf(subs: seq<Submessage>): seq<DataSubmessage> {
    if subs == [] then []
    else (if subs[0].Data? then [subs[0].data] else []) + DataOf(subs[1..])
  }

  function HeartbeatsOf(subs: seq<Submessage>): seq<HeartbeatSubmessage> {
    if subs == [] then []
    else (if subs[0].Heartbeat? then [subs[0].heartbeat] else []) + HeartbeatsOf(subs[1..])
  }

  function AckNacksOf(subs: seq<Submessage>): seq<AckNackSubmessage> {
    if subs == [] then []
    else (if subs[0].AckNack? then [subs[0].acknack] else []) + AckNacksOf(subs[1..])
  }

  /** The message with the submessages of each kind appended in their order. */
  function With(m: Message, subs: seq<Submessage>): Message {
    m.(data := m.data + DataOf(subs), heartbeats := m.heartbeats + HeartbeatsOf(subs),
       acknacks := m.acknacks + AckNacksOf(subs))
  }

  lemma WithFirst(m: Message, subs: seq<Submessage>)
    requires subs != []
    ensures With(m, subs) == With(Added(m, subs[0]), subs[1..])
  {
    hide DataOf, HeartbeatsOf, AckNacksOf;
    FirstOf(subs);
    var rest := subs[1..];
    Prepended(m.data, if subs[0].Data? then [subs[0].data] else [], DataOf(rest));
    Prepended(m.heartbeats, if subs[0].Heartbeat? then [subs[0].heartbeat] else [], HeartbeatsOf(rest));
    Prepended(m.acknacks, if subs[0].AckNack? then [subs[0].acknack] else [], AckNacksOf(rest));
  }

  lemma FirstOf(subs: seq<Submessage>)
    requires subs != []
    ensures DataOf(subs) == (if subs[0].Data? then [subs[0].data] else []) + DataOf(subs[1..])
    ensures HeartbeatsOf(subs) == (if subs[0].Heartbeat? then [subs[0].heartbeat] else []) + HeartbeatsOf(subs[1..])
    ensures AckNacksOf(subs) == (if subs[0].AckNack? then [subs[0].acknack] else []) + AckNacksOf(subs[1..])
  {
  }

  lemma Prepended<T>(before: seq<T>, first: seq<T>, rest: seq<T>)
    ensures before + (first + rest) == (before + first) + rest && (first == [] ==> before + first == before)
  {
  }

  lemma WithNone(m: Message)
    ensures With(m, []) == m
  {
    assert m.data + [] == m.data && m.heartbeats + [] == m.heartbeats && m.acknacks + [] == m.acknacks;
  }

  lemma {:induction false} SubmessagesAreGathered(m: Message, b: seq<Byte>, subs: seq<Submessage>)
    requires AreSubmessages(b, subs)
    ensures ParsedFrom(m, b) == Some(With(m, subs))
    decreases |subs|
  {
    hide IsSubmessage, FirstSubmessage, With, Added;
    if subs == [] {
      WithNone(m);
    } else {
      var n: nat :| IsSplitAt(b, subs[0], n) && AreSubmessages(b[n..], subs[1..]);
      SubmessageIsRead(b, subs[0], n);
      NotEmpty(b, subs[0], n);
      SubmessagesAreGathered(Added(m, subs[0]), b[n..], subs[1..]);
      WithFirst(m, subs);
    }
  }

  lemma NotEmpty(b: seq<Byte>, s: Submessage, n: nat)
    requires IsSplitAt(b, s, n)
    ensures b != []
  {
    hide IsBody;
  }

  lemma {:induction false} GatheredAreSubmessages(m: Message, b: seq<Byte>) returns (subs: seq<Submessage>)
    requires ParsedFrom(m, b).Some?
    ensures AreSubmessages(b, subs) && ParsedFrom(m, b) == Some(With(m, subs))
    decreases |b|
  {
    hide IsSubmessage, FirstSubmessage, With, Added;
    if b == [] {
      subs := [];
      WithNone(m);
    } else {
      var (s, n) := FirstSubmessage(b).value;
      SubmessageIsRead(b, s, n);
      var rest := GatheredAreSubmessages(Added(m, s), b[n..]);
      subs := [s] + rest;
      assert subs[1..] == rest && IsSplitAt(b, s, n);
      WithFirst(m, subs);
    }
  }

  /** The header of a message of this version, and its submessages, of which there is at least one. */
  ghost predicate IsMessage(bytes: seq<Byte>, vendor: VendorId, prefix: GuidPrefix, subs: seq<Submessage>) {
    && vendor != [0, 0] && subs != [] && RTPS_HEADER_SIZE <= |bytes|
    && bytes[..RTPS_HEADER_SIZE] == [0x52, 0x54, 0x50, 0x53, 2, 3] + vendor + prefix
    && AreSubmessages(bytes[RTPS_HEADER_SIZE..], subs)
  }

  lemma HeaderIsRead(bytes: seq<Byte>, vendor: VendorId, prefix: GuidPrefix)
    requires RTPS_HEADER_SIZE <= |bytes|
    ensures bytes[..RTPS_HEADER_SIZE] == [0x52, 0x54, 0x50, 0x53, 2, 3] + vendor + prefix <==>
      && bytes[..4] == MAGIC && bytes[4] == VERSION_MAJOR && bytes[5] == VERSION_MINOR
      && bytes[6..8] == vendor && bytes[8..20] == prefix
  {
    assert bytes[..RTPS_HEADER_SIZE] == bytes[..4] + [bytes[4], bytes[5]] + bytes[6..8] + bytes[8..20];
    var written := [0x52, 0x54, 0x50, 0x53, 2, 3] + vendor + prefix;
    if bytes[..RTPS_HEADER_SIZE] == written {
      assert bytes[..4] == written[..4] && bytes[4] == written[4] && bytes[5] == written[5];
      assert bytes[6..8] == written[6..8] && bytes[8..20] == written[8..20];
    }
  }

  lemma {:induction false} CountsAdd(subs: seq<Submessage>)
    ensures |DataOf(subs)| + |HeartbeatsOf(subs)| + |AckNacksOf(subs)| == |subs|
    decreases |subs|
  {
    if subs != [] {
      CountsAdd(subs[1..]);
    }
  }

  /**
   The parser accepts exactly the octets that are a message: the header, and then DATA, HEARTBEAT and ACKNACK
   submessages one after the other to the end. It returns those of each kind in their order.
   */
  lemma ParsedIsMessage(bytes: seq<Byte>, m: Message)
    ensures Parsed(bytes) == Some(m) <==>
      exists subs :: (
        && IsMessage(bytes, m.vendorId, m.guidPrefix, subs)
        && m == With(Message(m.vendorId, m.guidPrefix, [], [], []), subs))
  {
    hide ParsedFrom, AreSubmessages, DataOf, HeartbeatsOf, AckNacksOf;
    if Parsed(bytes) == Some(m) {
      var subs := GatheredAreSubmessages(EmptyMessage(bytes), bytes[RTPS_HEADER_SIZE..]);
      HeaderIsRead(bytes, m.vendorId, m.guidPrefix);
      CountsAdd(subs);
      assert IsMessage(bytes, m.vendorId, m.guidPrefix, subs);
    }
    if subs :| IsMessage(bytes, m.vendorId, m.guidPrefix, subs)
               && m == With(Message(m.vendorId, m.guidPrefix, [], [], []), subs) {
      HeaderIsRead(bytes, m.vendorId, m.guidPrefix);
      SubmessagesAreGathered(EmptyMessage(bytes), bytes[RTPS_HEADER_SIZE..], subs);
      CountsAdd(subs);
    }
  }

  // ----- what is printed -----

  /** A DATA submessage is printed exactly with a number and a payload of at most 65515 octets, and with these flags. */
  lemma DataPrints(d: DataSubmessage)
    ensures SubmessageOk(Data(d)) <==> d.writerSequenceNumber > 0 && 1 <= |d.serializedPayload| <= 65515
    ensures SubmessageOk(Data(d)) ==> SubmessageBytes(Data(d)) == Framed(0x15, 5, DataOctets(d))
  {
    hide PutU32Le, PutSequenceNumber;
    assert PutU16Le(0) + PutU16Le(OCTETS_TO_INLINE_QOS) == [0, 0, 16, 0];
  }

  lemma HeartbeatPrints(h: HeartbeatSubmessage)
    ensures SubmessageOk(Heartbeat(h)) <==> 1 <= h.firstSequenceNumber <= h.lastSequenceNumber && h.count > 0
    ensures SubmessageOk(Heartbeat(h)) ==>
      SubmessageBytes(Heartbeat(h)) == Framed(
        0x07, 1 + (if h.finalFlag then 2 else 0) + (if h.livelinessFlag then 4 else 0), HeartbeatOctets(h))
  {
    hide PutU16Le, PutU32Le, PutSequenceNumber;
  }

  /** The numbers asked for lie within 256 of the base; the bitmap is as short as they allow. */
  lemma AckNackPrints(a: AckNackSubmessage)
    ensures SubmessageOk(AckNack(a)) <==>
      && a.bitmapBase > 0 && a.count > 0
      && forall x <- a.missingSequenceNumbers :: a.bitmapBase <= x < a.bitmapBase + 256
    ensures SubmessageOk(AckNack(a)) ==>
      var bitmap := BitmapOf(a.bitmapBase, a.missingSequenceNumbers).value;
      && bitmap.numBits <= 256 && |bitmap.words| == (bitmap.numBits + 31) / 32
      && (a.missingSequenceNumbers == [] ==> bitmap.numBits == 0)
      && (a.missingSequenceNumbers != [] ==> a.bitmapBase + bitmap.numBits - 1 in a.missingSequenceNumbers)
      && SubmessageBytes(AckNack(a)) == Framed(
           0x06, 1 + (if a.finalFlag then 2 else 0), AckNackOctets(a, bitmap.numBits, WordBytes(bitmap.words)))
  {
    hide PutU16Le, PutU32Le, PutSequenceNumber, WordBytes;
    hide BitmapOf, SortUnique;
    BitmapFits(a.bitmapBase, a.missingSequenceNumbers);
    if SubmessageOk(AckNack(a)) {
      BitmapLength(a.bitmapBase, a.missingSequenceNumbers);
    }
  }

  lemma BitmapFits(base: U64, missing: seq<U64>)
    ensures BitmapOf(base, missing).Some? <==> forall x <- missing :: base <= x < base + 256
  {
    hide SortUnique, WordsOf, IsAscending;
    var sorted := SortUnique(missing);
    SameMembers(base, missing);
    if missing != [] {
      LastIsLargest(missing);
      var last := sorted[|sorted| - 1];
      assert last in sorted && forall x <- sorted :: x <= last;
    }
  }

  lemma SameMembers(base: U64, missing: seq<U64>)
    ensures SortUnique(missing) == [] <==> missing == []
    ensures (forall x <- missing :: base <= x < base + 256) <==>
      forall x <- SortUnique(missing) :: base <= x < base + 256
    ensures AllFrom(base, SortUnique(missing)) <==> AllFrom(base, missing)
  {
    assert forall x :: x in missing <==> x in SortUnique(missing);
    if missing != [] {
      assert missing[0] in SortUnique(missing);
    }
    if SortUnique(missing) != [] {
      assert SortUnique(missing)[0] in missing;
    }
  }
}
