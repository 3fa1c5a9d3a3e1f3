/** Serializing and parsing RTPS messages are inverse to each other, up to sorted missing lists. */
module RtpsRoundTrip {
  import opened Bytes
  import opened Words
  import opened Ascending
  import opened AckNackBitmap
  import opened RtpsMessage

  function Sorted(a: AckNackSubmessage): AckNackSubmessage {
    a.(missingSequenceNumbers := SortUnique(a.missingSequenceNumbers))
  }

  function NormalSubmessage(s: Submessage): Submessage {
    match s
    case Data(_) => s
    case Heartbeat(_) => s
    case AckNack(a) => AckNack(Sorted(a))
  }

  function SortedAll(acknacks: seq<AckNackSubmessage>): seq<AckNackSubmessage> {
    seq(|acknacks|, i requires 0 <= i < |acknacks| => Sorted(acknacks[i]))
  }

  /** The message with every missing list sorted and without duplicates. */
  function Normalized(m: Message): Message {
    m.(acknacks := SortedAll(m.acknacks))
  }

  // ----- one submessage -----

  lemma DataRoundTrip(d: DataSubmessage)
    requires SubmessageOk(Data(d))
    ensures DataIn(FlagsOf(Data(d)), DataBody(d)) == Some(Data(d))
  {
    hide PutU16Le, PutU32Le, GetU16Le, GetU32Le, PutSequenceNumber, GetSequenceNumber;
    var b := DataBody(d);
    assert b[0..2] == PutU16Le(0) && b[2..4] == PutU16Le(OCTETS_TO_INLINE_QOS);
    assert b[4..8] == d.readerId && b[8..12] == d.writerId;
    assert b[12..20] == PutSequenceNumber(d.writerSequenceNumber);
    assert b[20..] == d.serializedPayload;
    ReadU16Le(b, 0, 0);
    ReadU16Le(b, 2, OCTETS_TO_INLINE_QOS);
    ReadSequenceNumber(b, 12, d.writerSequenceNumber);
  }

  lemma HeartbeatRoundTrip(h: HeartbeatSubmessage)
    requires SubmessageOk(Heartbeat(h))
    ensures HeartbeatIn(FlagsOf(Heartbeat(h)), HeartbeatBody(h)) == Some(Heartbeat(h))
  {
    hide PutU32Le, GetU32Le, PutSequenceNumber, GetSequenceNumber;
    var b := HeartbeatBody(h);
    assert b[0..4] == h.readerId && b[4..8] == h.writerId;
    assert b[8..16] == PutSequenceNumber(h.firstSequenceNumber);
    assert b[16..24] == PutSequenceNumber(h.lastSequenceNumber);
    assert b[24..28] == PutU32Le(h.count);
    ReadSequenceNumber(b, 8, h.firstSequenceNumber);
    ReadSequenceNumber(b, 16, h.lastSequenceNumber);
    ReadU32Le(b, 24, h.count);
  }

  lemma AckNackFields(a: AckNackSubmessage, bitmap: Bitmap)
    requires bitmap.numBits < U32_MODULUS
    ensures var b, end := AckNackBody(a, bitmap), 20 + 4 * |bitmap.words|;
      && b[0..4] == a.readerId && b[4..8] == a.writerId
      && GetSequenceNumber(b, 8) == a.bitmapBase
      && GetU32Le(b, 16) == bitmap.numBits
      && b[20..] == WordBytes(bitmap.words) + PutU32Le(a.count)
      && GetU32Le(b, end) == a.count
  {
    hide PutU32Le, GetU32Le, PutSequenceNumber, GetSequenceNumber, WordBytes;
    var b, end := AckNackBody(a, bitmap), 20 + 4 * |bitmap.words|;
    assert b[0..4] == a.readerId && b[4..8] == a.writerId;
    assert b[8..16] == PutSequenceNumber(a.bitmapBase);
    assert b[16..20] == PutU32Le(bitmap.numBits);
    assert b[20..] == WordBytes(bitmap.words) + PutU32Le(a.count);
    assert b[end..end + 4] == PutU32Le(a.count);
    ReadSequenceNumber(b, 8, a.bitmapBase);
    ReadU32Le(b, 16, bitmap.numBits);
    ReadU32Le(b, end, a.count);
  }

  lemma AckNackRoundTrip(a: AckNackSubmessage)
    requires SubmessageOk(AckNack(a))
    ensures AckNackIn(FlagsOf(AckNack(a)), BodyOf(AckNack(a))) == Some(AckNack(Sorted(a)))
  {
    hide PutU32Le, GetU32Le, GetSequenceNumber, AckNackBody, BitmapOf, WordBytes, MissingIn, SortUnique;
    BitmapRoundTrip(a.bitmapBase, a.missingSequenceNumbers);
    var bitmap := BitmapOf(a.bitmapBase, a.missingSequenceNumbers).value;
    AckNackFields(a, bitmap);
    MissingInPrefix(a.bitmapBase, WordBytes(bitmap.words), PutU32Le(a.count), bitmap.numBits);
  }

  lemma SameBit(bitmap: seq<Byte>, rest: seq<Byte>, k: nat)
    requires 4 * (k / 32) + 4 <= |bitmap|
    ensures BitIsSet(bitmap + rest, k) == BitIsSet(bitmap, k)
  {
    hide Digits;
    assert GetU32Le(bitmap + rest, 4 * (k / 32)) == GetU32Le(bitmap, 4 * (k / 32));
  }

  /** Octets behind the bitmap do not matter. */
  lemma {:induction false} MissingInPrefix(base: U64, bitmap: seq<Byte>, rest: seq<Byte>, numBits: nat)
    requires 4 * WordCount(numBits) <= |bitmap|
    ensures MissingIn(base, bitmap + rest, numBits) == MissingIn(base, bitmap, numBits)
    decreases numBits
  {
    hide BitIsSet;
    if numBits > 0 {
      SameBit(bitmap, rest, numBits - 1);
      MissingInPrefix(base, bitmap, rest, numBits - 1);
    }
  }

  lemma BodyRoundTrip(s: Submessage)
    requires SubmessageOk(s)
    ensures SubmessageIn(KindOf(s), FlagsOf(s), BodyOf(s)) == Some(NormalSubmessage(s))
  {
    hide DataIn, HeartbeatIn, AckNackIn, DataBody, HeartbeatBody, AckNackBody, BitmapOf;
    match s
    case Data(d) => DataRoundTrip(d);
    case Heartbeat(h) => HeartbeatRoundTrip(h);
    case AckNack(a) => AckNackRoundTrip(a);
  }

  /** A printed submessage is read back, whatever follows it. */
  lemma SubmessageRoundTrip(s: Submessage, rest: seq<Byte>)
    requires SubmessageOk(s)
    ensures FirstSubmessage(SubmessageBytes(s) + rest) == Some((NormalSubmessage(s), SizeOf(s)))
    ensures (SubmessageBytes(s) + rest)[SizeOf(s)..] == rest
  {
    hide PutU16Le, GetU16Le, BodyOf, SubmessageIn, SubmessageOk, SizeOf;
    BodyRoundTrip(s);
    var b := SubmessageBytes(s) + rest;
    assert b[2..4] == PutU16Le(|BodyOf(s)|);
    ReadU16Le(b, 2, |BodyOf(s)|);
    assert b[4..4 + |BodyOf(s)|] == BodyOf(s);
    assert b[0] == KindOf(s) && b[1] == FlagsOf(s);
  }

  // ----- lists of submessages -----

  function AddedAll(m: Message, subs: seq<Submessage>): Message
    decreases |subs|
  {
    if subs == [] then m else AddedAll(Added(m, NormalSubmessage(subs[0])), subs[1..])
  }

  lemma {:induction false} AllBytesFromFront(subs: seq<Submessage>)
    requires AllOk(subs) && subs != []
    ensures AllOk(subs[1..]) && AllBytes(subs) == SubmessageBytes(subs[0]) + AllBytes(subs[1..])
    decreases |subs|
  {
    hide SubmessageBytes, SubmessageOk, SizeOf, TotalSize;
    if |subs| > 1 {
      var init, last := subs[..|subs| - 1], subs[|subs| - 1];
      AllBytesFromFront(init);
      assert subs[1..] == init[1..] + [last];
      assert AllBytes(subs[1..]) == AllBytes(init[1..]) + SubmessageBytes(last);
    }
  }

  lemma {:induction false} ListRoundTrip(m: Message, subs: seq<Submessage>)
    requires AllOk(subs)
    ensures ParsedFrom(m, AllBytes(subs)) == Some(AddedAll(m, subs))
    decreases |subs|
  {
    hide SubmessageBytes, SubmessageOk, FirstSubmessage, Added, NormalSubmessage, AllBytes;
    if subs == [] {
      NoBytes();
    } else {
      AllBytesFromFront(subs);
      SubmessageRoundTrip(subs[0], AllBytes(subs[1..]));
      BytesNotEmpty(subs[0]);
      ListRoundTrip(Added(m, NormalSubmessage(subs[0])), subs[1..]);
    }
  }

  lemma NoBytes()
    ensures AllBytes([]) == []
  {
  }

  lemma BytesNotEmpty(s: Submessage)
    requires SubmessageOk(s)
    ensures SubmessageBytes(s) != []
  {
  }

  lemma {:induction false} AddedAllConcat(m: Message, a: seq<Submessage>, b: seq<Submessage>)
    ensures AddedAll(m, a + b) == AddedAll(AddedAll(m, a), b)
    decreases |a|
  {
    hide Added, NormalSubmessage;
    if a == [] {
      assert a + b == b;
    } else {
      assert (a + b)[0] == a[0] && (a + b)[1..] == a[1..] + b;
      AddedAllConcat(Added(m, NormalSubmessage(a[0])), a[1..], b);
    }
  }

  lemma {:induction false} AddData(m: Message, data: seq<DataSubmessage>)
    ensures AddedAll(m, DataList(data)) == m.(data := m.data + data)
    decreases |data|
  {
    if data == [] {
      assert m.data + data == m.data;
    } else {
      assert DataList(data)[1..] == DataList(data[1..]);
      AddData(m.(data := m.data + [data[0]]), data[1..]);
      assert m.data + [data[0]] + data[1..] == m.data + data;
    }
  }

  lemma {:induction false} AddHeartbeats(m: Message, heartbeats: seq<HeartbeatSubmessage>)
    ensures AddedAll(m, HeartbeatList(heartbeats)) == m.(heartbeats := m.heartbeats + heartbeats)
    decreases |heartbeats|
  {
    if heartbeats == [] {
      assert m.heartbeats + heartbeats == m.heartbeats;
    } else {
      assert HeartbeatList(heartbeats)[1..] == HeartbeatList(heartbeats[1..]);
      AddHeartbeats(m.(heartbeats := m.heartbeats + [heartbeats[0]]), heartbeats[1..]);
      assert m.heartbeats + [heartbeats[0]] + heartbeats[1..] == m.heartbeats + heartbeats;
    }
  }

  lemma {:induction false} AddAckNacks(m: Message, acknacks: seq<AckNackSubmessage>)
    ensures AddedAll(m, AckNackList(acknacks)) == m.(acknacks := m.acknacks + SortedAll(acknacks))
    decreases |acknacks|
  {
    hide Sorted;
    if acknacks == [] {
      assert m.acknacks + SortedAll(acknacks) == m.acknacks;
    } else {
      assert AckNackList(acknacks)[1..] == AckNackList(acknacks[1..]);
      AddAckNacks(m.(acknacks := m.acknacks + [Sorted(acknacks[0])]), acknacks[1..]);
      assert m.acknacks + [Sorted(acknacks[0])] + SortedAll(acknacks[1..]) == m.acknacks + SortedAll(acknacks);
    }
  }

  // ----- whole messages -----

  /** Whatever the serializer accepts parses back to the same message with sorted missing lists. */
  lemma SerializedParses(m: Message)
    requires Serialized(m).Some?
    ensures Parsed(Serialized(m).value) == Some(Normalized(m))
    ensures |Serialized(m).value| == RTPS_HEADER_SIZE + TotalSize(Submessages(m)) <= MAX_UDP_PAYLOAD_SIZE
  {
    hide AllBytes, TotalSize, AllOk, ParsedFrom, DataList, HeartbeatList, AckNackList, Sorted;
    var bytes, empty := Serialized(m).value, Message(m.vendorId, m.guidPrefix, [], [], []);
    assert bytes[..4] == MAGIC && bytes[4] == VERSION_MAJOR && bytes[5] == VERSION_MINOR;
    assert bytes[6..8] == m.vendorId && bytes[8..20] == m.guidPrefix;
    assert bytes[RTPS_HEADER_SIZE..] == AllBytes(Submessages(m));
    ListRoundTrip(empty, Submessages(m));
    RegroupSubmessages(empty, m);
  }

  lemma RegroupSubmessages(empty: Message, m: Message)
    requires empty == Message(m.vendorId, m.guidPrefix, [], [], [])
    ensures AddedAll(empty, Submessages(m)) == Normalized(m)
  {
    hide AddedAll, DataList, HeartbeatList, AckNackList, Sorted;
    AddedAllConcat(empty, DataList(m.data) + HeartbeatList(m.heartbeats), AckNackList(m.acknacks));
    AddedAllConcat(empty, DataList(m.data), HeartbeatList(m.heartbeats));
    AddData(empty, m.data);
    AddHeartbeats(empty.(data := m.data), m.heartbeats);
    AddAckNacks(empty.(data := m.data, heartbeats := m.heartbeats), m.acknacks);
    assert [] + m.data == m.data && [] + m.heartbeats == m.heartbeats;
    assert [] + SortedAll(m.acknacks) == Normalized(m).acknacks;
  }

  // ----- the other way round -----

  /** None of the missing numbers wrapped round to before the bitmap base. */
  predicate NothingWrapped(m: Message) {
    forall i :: 0 <= i < |m.acknacks| ==> AllFrom(m.acknacks[i].bitmapBase, m.acknacks[i].missingSequenceNumbers)
  }

  /** What is known of a submessage that was parsed: it prints again unless a number wrapped. */
  predicate FromWire(s: Submessage) {
    match s
    case Data(_) => SubmessageOk(s)
    case Heartbeat(_) => SubmessageOk(s)
    case AckNack(a) =>
      && (SubmessageOk(s) <==> AllFrom(a.bitmapBase, a.missingSequenceNumbers))
      && (SubmessageOk(s) ==> Sorted(a) == a)
  }

  lemma ParsedAckNack(flags: Byte, body: seq<Byte>)
    requires AckNackIn(flags, body).Some?
    ensures var s := AckNackIn(flags, body).value;
      FromWire(s) && (SubmessageOk(s) ==> SizeOf(s) <= SUBMESSAGE_HEADER_SIZE + |body|)
  {
    hide GetU32Le, GetSequenceNumber, MissingIn, SortUnique, BitmapOf;
    var base, numBits := GetSequenceNumber(body, 8), GetU32Le(body, 16);
    var missing := MissingIn(base, body[20..], numBits);
    ParsedListRewritable(base, body[20..], numBits);
    if BitmapOf(base, missing).Some? {
      BitmapLength(base, missing);
    }
  }

  lemma ParsedSubmessage(b: seq<Byte>)
    requires FirstSubmessage(b).Some?
    ensures var (s, next) := FirstSubmessage(b).value;
      FromWire(s) && (SubmessageOk(s) ==> SizeOf(s) <= next)
  {
    hide GetU16Le, GetU32Le, GetSequenceNumber, MissingIn, SortUnique, BitmapOf, Largest, FlagSet, AckNackIn;
    var next := SUBMESSAGE_HEADER_SIZE + GetU16Le(b, 2);
    if b[0] == ACKNACK_KIND {
      ParsedAckNack(b[1], b[SUBMESSAGE_HEADER_SIZE..next]);
    }
  }

  lemma {:induction false} TotalSizeConcat(a: seq<Submessage>, b: seq<Submessage>)
    ensures TotalSize(a + b) == TotalSize(a) + TotalSize(b)
    decreases |b|
  {
    hide SizeOf;
    if b == [] {
      assert a + b == a;
    } else {
      TotalSizeConcat(a, b[..|b| - 1]);
      assert (a + b)[..|a + b| - 1] == a + b[..|b| - 1];
    }
  }

  /** Where a parsed submessage ends up among those parsed before. */
  lemma AddedPlace(m: Message, s: Submessage) returns (before: seq<Submessage>, after: seq<Submessage>)
    ensures Submessages(m) == before + after
    ensures Submessages(Added(m, s)) == before + [s] + after
  {
    match s
    case Data(d) =>
      before, after := DataList(m.data), HeartbeatList(m.heartbeats) + AckNackList(m.acknacks);
      assert DataList(m.data + [d]) == before + [s];
    case Heartbeat(h) =>
      before, after := DataList(m.data) + HeartbeatList(m.heartbeats), AckNackList(m.acknacks);
      assert HeartbeatList(m.heartbeats + [h]) == HeartbeatList(m.heartbeats) + [s];
    case AckNack(a) =>
      before, after := Submessages(m), [];
      assert AckNackList(m.acknacks + [a]) == AckNackList(m.acknacks) + [s];
  }

  lemma OneMore(m: Message, s: Submessage)
    ensures TotalSize(Submessages(Added(m, s))) == TotalSize(Submessages(m)) + SizeOf(s)
    ensures forall x :: x in Submessages(Added(m, s)) <==> x == s || x in Submessages(m)
  {
    hide Submessages, Added, SizeOf;
    var before, after := AddedPlace(m, s);
    TotalSizeConcat(before, after);
    TotalSizeConcat(before + [s], after);
    TotalSizeConcat(before, [s]);
    assert [s][..0] == [];
  }

  predicate AllPrintable(m: Message) {
    forall s <- Submessages(m) :: SubmessageOk(s)
  }

  /** Parsing gathers submessages that came from the wire, and no more octets than it read. */
  lemma {:induction false} ParsedMessage(m: Message, b: seq<Byte>)
    requires ParsedFrom(m, b).Some?
    requires forall s <- Submessages(m) :: FromWire(s)
    ensures var m' := ParsedFrom(m, b).value;
      && (forall s <- Submessages(m') :: FromWire(s))
      && (AllPrintable(m') ==>
            AllPrintable(m) && TotalSize(Submessages(m')) <= TotalSize(Submessages(m)) + |b|)
      && m'.vendorId == m.vendorId && m'.guidPrefix == m.guidPrefix
    decreases |b|
  {
    hide FirstSubmessage, FromWire, SubmessageOk, SizeOf, Submessages, TotalSize;
    if b != [] {
      var (s, next) := FirstSubmessage(b).value;
      ParsedSubmessage(b);
      OneMore(m, s);
      ParsedMessage(Added(m, s), b[next..]);
    }
  }

  lemma PrintableUnlessWrapped(m: Message)
    requires forall s <- Submessages(m) :: FromWire(s)
    ensures AllOk(Submessages(m)) <==> NothingWrapped(m)
    ensures AllOk(Submessages(m)) ==> Normalized(m) == m && AllPrintable(m)
  {
    hide SubmessageOk, Sorted;
    var n := |m.data| + |m.heartbeats|;
    forall i | 0 <= i < |m.acknacks|
      ensures SubmessageOk(AckNack(m.acknacks[i])) <==>
        AllFrom(m.acknacks[i].bitmapBase, m.acknacks[i].missingSequenceNumbers)
      ensures SubmessageOk(AckNack(m.acknacks[i])) ==> Sorted(m.acknacks[i]) == m.acknacks[i]
    {
      assert Submessages(m)[n + i] == AckNack(m.acknacks[i]);
      assert AckNack(m.acknacks[i]) in Submessages(m);
    }
    forall i | 0 <= i < n
      ensures SubmessageOk(Submessages(m)[i])
    {
      assert Submessages(m)[i] in Submessages(m);
    }
    if AllOk(Submessages(m)) {
      forall i | 0 <= i < |m.acknacks|
        ensures SubmessageOk(AckNack(m.acknacks[i]))
      {
        assert Submessages(m)[n + i] == AckNack(m.acknacks[i]);
      }
      assert Normalized(m).acknacks == m.acknacks;
    }
  }

  /**
   A parsed message prints again exactly when no missing number wrapped and it fits a datagram.
   What it prints is no longer than what was parsed, and parses to the same message.
   */
  lemma ParsedSerializes(bytes: seq<Byte>)
    requires Parsed(bytes).Some?
    ensures var m := Parsed(bytes).value;
      && (Serialized(m).Some? <==> NothingWrapped(m) && FitsUdpPayload(m))
      && (NothingWrapped(m) && |bytes| <= MAX_UDP_PAYLOAD_SIZE ==> FitsUdpPayload(m))
      && (Serialized(m).Some? ==>
            |Serialized(m).value| <= |bytes| && Parsed(Serialized(m).value) == Some(m))
  {
    hide ParsedFrom, Submessages, TotalSize, AllOk, AllBytes, HeaderBytes, Normalized, AllPrintable, NothingWrapped;
    hide FromWire;
    var m, empty := Parsed(bytes).value, EmptyMessage(bytes);
    NothingYet(empty);
    ParsedMessage(empty, bytes[RTPS_HEADER_SIZE..]);
    PrintableUnlessWrapped(m);
    if Serialized(m).Some? {
      SerializedParses(m);
    }
  }

  lemma NothingYet(m: Message)
    requires m.data == [] && m.heartbeats == [] && m.acknacks == []
    ensures Submessages(m) == [] && TotalSize(Submessages(m)) == 0
  {
  }

  function SecondBit(): Word32 {
    seq(32, p => p == 30)
  }

  lemma SecondBitOnly(base: U64)
    ensures MissingIn(base, WordBytes([SecondBit()]), 2) == [NumberOfBit(base, 1)]
  {
    hide BitIsSet, WordBytes;
    BitOnWire([SecondBit()], 0);
    BitOnWire([SecondBit()], 1);
    assert MissingIn(base, WordBytes([SecondBit()]), 1) == [];
  }

  /** An ACKNACK with base 2^64 - 1 and its second bit set is parsed as asking for number 0; it does not print again. */
  lemma WrappedNumberIsParsed(a: AckNackSubmessage)
    requires a.bitmapBase == U64_MODULUS - 1 && a.missingSequenceNumbers == [0] && a.count != 0 && !a.finalFlag
    ensures AckNackIn(1, AckNackBody(a, Bitmap(2, [SecondBit()]))) == Some(AckNack(a)) && !SubmessageOk(AckNack(a))
  {
    hide PutU32Le, GetU32Le, GetSequenceNumber, AckNackBody, WordBytes, MissingIn, SecondBit;
    var words := [SecondBit()];
    AckNackFields(a, Bitmap(2, words));
    MissingInPrefix(a.bitmapBase, WordBytes(words), PutU32Le(a.count), 2);
    SecondBitOnly(a.bitmapBase);
    assert 0 in SortUnique(a.missingSequenceNumbers);
  }

  /** The datagram that carries such an ACKNACK. */
  function WrappedDatagram(m: Message): seq<Byte>
    requires |m.acknacks| == 1
  {
    HeaderBytes(m) + [ACKNACK_KIND, LITTLE_ENDIAN_FLAG] + PutU16Le(ACKNACK_BODY_HEADER_SIZE + 4)
    + AckNackBody(m.acknacks[0], Bitmap(2, [SecondBit()]))
  }

  lemma ParsedToEnd(m: Message)
    ensures ParsedFrom(m, []) == Some(m)
  {
  }

  /** It is parsed as a whole message, which the serializer then refuses. */
  lemma WrappedDatagramIsParsed(m: Message)
    requires m.vendorId != [0, 0] && m.data == [] && m.heartbeats == [] && |m.acknacks| == 1
    requires var a := m.acknacks[0];
      a.bitmapBase == U64_MODULUS - 1 && a.missingSequenceNumbers == [0] && a.count != 0 && !a.finalFlag
    ensures Parsed(WrappedDatagram(m)) == Some(m) && |WrappedDatagram(m)| <= MAX_UDP_PAYLOAD_SIZE
    ensures Serialized(m) == None
  {
    hide AckNackIn, AckNackBody, PutU16Le, GetU16Le, SecondBit, SubmessageOk, TotalSize, AllBytes, WordBytes;
    var a, empty := m.acknacks[0], Message(m.vendorId, m.guidPrefix, [], [], []);
    var body, bytes := AckNackBody(a, Bitmap(2, [SecondBit()])), WrappedDatagram(m);
    WrappedNumberIsParsed(a);
    var b := bytes[RTPS_HEADER_SIZE..];
    assert b == [ACKNACK_KIND, LITTLE_ENDIAN_FLAG] + PutU16Le(|body|) + body;
    ReadU16Le(b, 2, |body|);
    assert b[SUBMESSAGE_HEADER_SIZE..SUBMESSAGE_HEADER_SIZE + |body|] == body;
    assert FirstSubmessage(b) == Some((AckNack(a), |b|));
    assert b[|b|..] == [] && Added(empty, AckNack(a)).acknacks == m.acknacks;
    ParsedToEnd(Added(empty, AckNack(a)));
    assert ParsedFrom(empty, b) == ParsedFrom(Added(empty, AckNack(a)), []);
    assert bytes[..4] == MAGIC && bytes[6..8] == m.vendorId && bytes[8..20] == m.guidPrefix;
    assert Submessages(m)[0] == AckNack(a);
  }
}
