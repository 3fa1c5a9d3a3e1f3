/** The serializer and parser loops, proved to compute the printed and the parsed message. */
module RtpsCodec {
  import opened Bytes
  import opened Words
  import opened Modular
  import opened Ascending
  import opened AckNackBitmap
  import opened RtpsMessage
  import opened RtpsRoundTrip

  // ----- sizes -----

  lemma OneMoreSubmessage(subs: seq<Submessage>, i: nat)
    requires i < |subs|
    ensures subs[..i + 1] == subs[..i] + [subs[i]]
    ensures TotalSize(subs[..i + 1]) == TotalSize(subs[..i]) + SizeOf(subs[i])
    ensures AllOk(subs[..i + 1]) <==> AllOk(subs[..i]) && SubmessageOk(subs[i])
    ensures AllOk(subs[..i + 1]) ==> AllBytes(subs[..i + 1]) == AllBytes(subs[..i]) + SubmessageBytes(subs[i])
  {
    hide SubmessageOk, SizeOf, SubmessageBytes;
    assert subs[..i + 1][..i] == subs[..i];
    assert subs[..i + 1][i] == subs[i];
  }

  lemma ReckonedOneMore(subs: seq<Submessage>, i: nat)
    requires i < |subs|
    ensures ReckonedTotal(subs[..i + 1]) == ReckonedTotal(subs[..i]) + ReckonedSizeOf(subs[i])
  {
    hide ReckonedSizeOf;
    assert subs[..i + 1][..i] == subs[..i];
  }

  lemma {:induction false} ReckonedHeartbeats(subs: seq<Submessage>, from: nat, n: nat)
    requires from + n <= |subs| && forall i :: from <= i < from + n ==> subs[i].Heartbeat?
    ensures ReckonedTotal(subs[..from + n]) == ReckonedTotal(subs[..from]) + n * HEARTBEAT_SIZE
    decreases n
  {
    hide ReckonedTotal;
    if n > 0 {
      ReckonedHeartbeats(subs, from, n - 1);
      ReckonedOneMore(subs, from + n - 1);
    }
  }

  const DATA_HEADER_SIZE := SUBMESSAGE_HEADER_SIZE + DATA_BODY_HEADER_SIZE
  const HEARTBEAT_SIZE := SUBMESSAGE_HEADER_SIZE + HEARTBEAT_BODY_SIZE
  const ACKNACK_HEADER_SIZE := SUBMESSAGE_HEADER_SIZE + ACKNACK_BODY_HEADER_SIZE

  /** The size reckoned for the first `n` submessages. */
  ghost function SizeUpTo(subs: seq<Submessage>, n: nat): U64
    requires n <= |subs|
  {
    (RTPS_HEADER_SIZE + ReckonedTotal(subs[..n])) % U64_MODULUS
  }

  lemma SizeGrows(subs: seq<Submessage>, i: nat)
    requires i < |subs|
    ensures SizeUpTo(subs, i + 1) == (SizeUpTo(subs, i) + ReckonedSizeOf(subs[i])) % U64_MODULUS
  {
    hide ReckonedTotal, ReckonedSizeOf;
    ReckonedOneMore(subs, i);
    AddToRemainder(RTPS_HEADER_SIZE + ReckonedTotal(subs[..i]), ReckonedSizeOf(subs[i]), U64_MODULUS);
  }

  lemma SizeGrowsByHeartbeats(m: Message)
    ensures var subs, n := Submessages(m), |m.heartbeats|;
      |m.data| + n <= |subs|
      && SizeUpTo(subs, |m.data| + n) == (SizeUpTo(subs, |m.data|) + n * HEARTBEAT_SIZE) % U64_MODULUS
  {
    hide ReckonedTotal;
    var subs, n := Submessages(m), |m.heartbeats|;
    ReckonedHeartbeats(subs, |m.data|, n);
    AddToRemainder(RTPS_HEADER_SIZE + ReckonedTotal(subs[..|m.data|]), n * HEARTBEAT_SIZE, U64_MODULUS);
  }

  lemma WholeSize(m: Message)
    ensures SizeUpTo(Submessages(m), 0) == RTPS_HEADER_SIZE
    ensures SizeUpTo(Submessages(m), |Submessages(m)|) == ReckonedSize(m)
  {
    hide Submessages;
    assert Submessages(m)[..|Submessages(m)|] == Submessages(m);
  }

  method SerializedSize(m: Message) returns (size: U64)
    ensures size == ReckonedSize(m)
  {
    hide SizeUpTo, Submessages, ReckonedWords, ReckonedSize;
    ghost var subs := Submessages(m);
    SubmessagePlaces(m);
    WholeSize(m);
    SizeGrowsByHeartbeats(m);
    size := RTPS_HEADER_SIZE;
    for i := 0 to |m.data|
      invariant size == SizeUpTo(subs, i)
    {
      SizeGrows(subs, i);
      size := (size + DATA_HEADER_SIZE + |m.data[i].serializedPayload|) % U64_MODULUS;
    }
    size := (size + |m.heartbeats| * HEARTBEAT_SIZE) % U64_MODULUS;
    ghost var n := |m.data| + |m.heartbeats|;
    for i := 0 to |m.acknacks|
      invariant size == SizeUpTo(subs, n + i)
    {
      SizeGrows(subs, n + i);
      var wordCount := BitmapWordCount(m.acknacks[i]);
      size := (size + ACKNACK_HEADER_SIZE + 4 * wordCount) % U64_MODULUS;
    }
  }

  method BitmapWordCount(a: AckNackSubmessage) returns (wordCount: nat)
    ensures wordCount == ReckonedWords(a)
  {
    if a.bitmapBase == 0 || a.missingSequenceNumbers == [] {
      return 0;
    }
    var maxMissing := a.missingSequenceNumbers[0];
    for i := 1 to |a.missingSequenceNumbers|
      invariant maxMissing in a.missingSequenceNumbers
      invariant forall j :: 0 <= j < i ==> a.missingSequenceNumbers[j] <= maxMissing
    {
      if maxMissing < a.missingSequenceNumbers[i] {
        maxMissing := a.missingSequenceNumbers[i];
      }
    }
    assert maxMissing == Largest(a.missingSequenceNumbers);
    if maxMissing < a.bitmapBase {
      return 0;
    }
    var span := maxMissing - a.bitmapBase + 1;
    wordCount := (span + 31) % U64_MODULUS / 32;
  }

  lemma SubmessagePlaces(m: Message)
    ensures var subs := Submessages(m);
      && |subs| == |m.data| + |m.heartbeats| + |m.acknacks|
      && (forall i :: 0 <= i < |m.data| ==> subs[i] == Data(m.data[i]))
      && (forall i :: 0 <= i < |m.heartbeats| ==> subs[|m.data| + i] == Heartbeat(m.heartbeats[i]))
      && (forall i :: 0 <= i < |m.acknacks| ==> subs[|m.data| + |m.heartbeats| + i] == AckNack(m.acknacks[i]))
  {
  }

  lemma NothingListed(subs: seq<Submessage>)
    ensures TotalSize(subs[..0]) == 0 && AllOk(subs[..0]) && AllBytes(subs[..0]) == []
  {
  }

  // ----- serializing -----

  method AppendData(bytes: seq<Byte>, d: DataSubmessage) returns (r: Option<seq<Byte>>)
    ensures r == if SubmessageOk(Data(d)) then Some(bytes + SubmessageBytes(Data(d))) else None
  {
    hide PutU16Le, PutSequenceNumber;
    if d.writerSequenceNumber == 0 || d.serializedPayload == [] {
      return None;
    }
    var submessageLength := DATA_BODY_HEADER_SIZE + |d.serializedPayload|;
    if submessageLength > MAX_SUBMESSAGE_LENGTH {
      return None;
    }
    var out := bytes + [DATA_KIND];
    out := out + [LITTLE_ENDIAN_FLAG + DATA_PAYLOAD_FLAG];
    out := out + PutU16Le(submessageLength);
    out := out + PutU16Le(0);
    out := out + PutU16Le(OCTETS_TO_INLINE_QOS);
    out := out + d.readerId;
    out := out + d.writerId;
    out := out + PutSequenceNumber(d.writerSequenceNumber);
    out := out + d.serializedPayload;
    assert out == bytes + SubmessageBytes(Data(d));
    r := Some(out);
  }

  method AppendHeartbeat(bytes: seq<Byte>, h: HeartbeatSubmessage) returns (r: Option<seq<Byte>>)
    ensures r == if SubmessageOk(Heartbeat(h)) then Some(bytes + SubmessageBytes(Heartbeat(h))) else None
  {
    hide PutU16Le, PutU32Le, PutSequenceNumber;
    if h.firstSequenceNumber == 0 || h.lastSequenceNumber == 0 || h.firstSequenceNumber > h.lastSequenceNumber {
      return None;
    }
    if h.count == 0 {
      return None;
    }
    var out := bytes + [HEARTBEAT_KIND];
    var flags: Byte := LITTLE_ENDIAN_FLAG;
    if h.finalFlag {
      flags := flags + FINAL_FLAG;
    }
    if h.livelinessFlag {
      flags := flags + LIVELINESS_FLAG;
    }
    out := out + [flags];
    out := out + PutU16Le(HEARTBEAT_BODY_SIZE);
    out := out + h.readerId;
    out := out + h.writerId;
    out := out + PutSequenceNumber(h.firstSequenceNumber);
    out := out + PutSequenceNumber(h.lastSequenceNumber);
    out := out + PutU32Le(h.count);
    assert out == bytes + SubmessageBytes(Heartbeat(h));
    r := Some(out);
  }

  method AppendWords(bytes: seq<Byte>, words: seq<Word32>) returns (out: seq<Byte>)
    ensures out == bytes + WordBytes(words)
  {
    hide PutU32Le;
    out := bytes;
    for i := 0 to |words|
      invariant out + WordBytes(words[i..]) == bytes + WordBytes(words)
    {
      assert words[i..][0] == words[i] && words[i..][1..] == words[i + 1..];
      out := out + PutU32Le(ToU32(words[i]));
    }
  }

  lemma AckNackLayout(a: AckNackSubmessage)
    requires SubmessageOk(AckNack(a))
    ensures var bitmap := BitmapOf(a.bitmapBase, a.missingSequenceNumbers).value;
      && bitmap.numBits <= MAX_BITMAP_BITS && |bitmap.words| <= 8
      && SubmessageBytes(AckNack(a)) ==
           [ACKNACK_KIND] + [if a.finalFlag then 3 else 1]
           + PutU16Le(ACKNACK_BODY_HEADER_SIZE + 4 * |bitmap.words|)
           + a.readerId + a.writerId + PutSequenceNumber(a.bitmapBase)
           + PutU32Le(bitmap.numBits) + WordBytes(bitmap.words) + PutU32Le(a.count)
  {
    hide PutU16Le, PutU32Le, PutSequenceNumber, BitmapOf, WordBytes, Largest;
    BitmapLength(a.bitmapBase, a.missingSequenceNumbers);
  }

  method AppendAckNack(bytes: seq<Byte>, a: AckNackSubmessage) returns (r: Option<seq<Byte>>)
    ensures r == if SubmessageOk(AckNack(a)) then Some(bytes + SubmessageBytes(AckNack(a))) else None
  {
    hide PutU16Le, PutU32Le, PutSequenceNumber, BitmapOf, WordBytes, Largest, SubmessageBytes;
    if a.bitmapBase == 0 || a.count == 0 {
      return None;
    }
    var bitmap := AckNackBitmapWords(a.bitmapBase, a.missingSequenceNumbers);
    if bitmap.None? {
      return None;
    }
    AckNackLayout(a);
    var submessageLength := ACKNACK_BODY_HEADER_SIZE + 4 * |bitmap.value.words|;
    var out := bytes + [ACKNACK_KIND];
    out := out + [if a.finalFlag then LITTLE_ENDIAN_FLAG + FINAL_FLAG else LITTLE_ENDIAN_FLAG];
    out := out + PutU16Le(submessageLength);
    out := out + a.readerId;
    out := out + a.writerId;
    out := out + PutSequenceNumber(a.bitmapBase);
    out := out + PutU32Le(bitmap.value.numBits);
    out := AppendWords(out, bitmap.value.words);
    out := out + PutU32Le(a.count);
    assert out == bytes + SubmessageBytes(AckNack(a));
    r := Some(out);
  }

  method SerializeRtpsMessage(m: Message) returns (r: Option<seq<Byte>>)
    ensures r == SerializedAsReckoned(m)
  {
    hide ReckonedSize, TotalSize, SizeOf, Submessages, SubmessageOk, SubmessageBytes, AllOk, AllBytes;
    if !HasAnySubmessage(m) || m.vendorId == [0, 0] {
      return None;
    }
    var size := SerializedSize(m);
    if size > MAX_UDP_PAYLOAD_SIZE {
      return None;
    }
    ghost var subs := Submessages(m);
    SubmessagePlaces(m);
    NothingListed(subs);
    var bytes := MAGIC;
    bytes := bytes + [VERSION_MAJOR, VERSION_MINOR];
    bytes := bytes + m.vendorId;
    bytes := bytes + m.guidPrefix;
    for i := 0 to |m.data|
      invariant AllOk(subs[..i]) && bytes == HeaderBytes(m) + AllBytes(subs[..i])
    {
      OneMoreSubmessage(subs, i);
      var longer := AppendData(bytes, m.data[i]);
      if longer.None? {
        NotAllOk(subs, i);
        return None;
      }
      bytes := longer.value;
    }
    for i := 0 to |m.heartbeats|
      invariant AllOk(subs[..|m.data| + i]) && bytes == HeaderBytes(m) + AllBytes(subs[..|m.data| + i])
    {
      OneMoreSubmessage(subs, |m.data| + i);
      var longer := AppendHeartbeat(bytes, m.heartbeats[i]);
      if longer.None? {
        NotAllOk(subs, |m.data| + i);
        return None;
      }
      bytes := longer.value;
    }
    ghost var n := |m.data| + |m.heartbeats|;
    for i := 0 to |m.acknacks|
      invariant AllOk(subs[..n + i]) && bytes == HeaderBytes(m) + AllBytes(subs[..n + i])
    {
      OneMoreSubmessage(subs, n + i);
      var longer := AppendAckNack(bytes, m.acknacks[i]);
      if longer.None? {
        NotAllOk(subs, n + i);
        return None;
      }
      bytes := longer.value;
    }
    assert subs[..|subs|] == subs;
    r := Some(bytes);
  }

  lemma NotAllOk(subs: seq<Submessage>, i: nat)
    requires i < |subs| && !SubmessageOk(subs[i])
    ensures !AllOk(subs)
  {
  }

  // ----- parsing -----

  lemma BitInWord(bitmap: seq<Byte>, bit: nat, numBits: nat)
    requires bit < numBits && 4 * WordCount(numBits) <= |bitmap|
    ensures 4 * (bit / 32) + 4 <= |bitmap|
    ensures BitIsSet(bitmap, bit) == Digits(GetU32Le(bitmap, 4 * (bit / 32)), 32)[31 - bit % 32]
  {
    hide GetU32Le, Digits;
  }

  /** The bits of the bitmap, in a loop over a 64-bit counter sum. */
  method ReadMissing(base: U64, bitmap: seq<Byte>, numBits: nat) returns (missing: seq<U64>)
    requires 4 * WordCount(numBits) <= |bitmap|
    ensures missing == MissingIn(base, bitmap, numBits)
  {
    hide GetU32Le, Digits, BitIsSet, NumberOfBit, WordCount;
    missing := [];
    for bit := 0 to numBits
      invariant missing == MissingIn(base, bitmap, bit)
    {
      BitInWord(bitmap, bit, numBits);
      var word := Digits(GetU32Le(bitmap, 4 * (bit / 32)), 32);
      if word[31 - bit % 32] {
        missing := missing + [NumberOfBit(base, bit)];
      }
    }
  }

  method ParseAckNack(flags: Byte, body: seq<Byte>) returns (r: Option<Submessage>)
    ensures r == AckNackIn(flags, body)
  {
    hide GetU32Le, GetSequenceNumber, MissingIn;
    if |body| < ACKNACK_BODY_HEADER_SIZE || (|body| - ACKNACK_BODY_HEADER_SIZE) % 4 != 0 {
      return None;
    }
    var base := GetSequenceNumber(body, 8);
    var numBits := GetU32Le(body, 16);
    if base == 0 || numBits > MAX_BITMAP_BITS {
      return None;
    }
    var wordCount := (numBits + 31) / 32;
    if |body| != ACKNACK_BODY_HEADER_SIZE + 4 * wordCount {
      return None;
    }
    var missing := ReadMissing(base, body[20..], numBits);
    var count := GetU32Le(body, 20 + 4 * wordCount);
    if count == 0 {
      return None;
    }
    return Some(AckNack(AckNackSubmessage(
      body[0..4], body[4..8], base, missing, count, FlagSet(flags, FINAL_FLAG))));
  }

  method DeserializeRtpsMessage(bytes: seq<Byte>) returns (r: Option<Message>)
    ensures r == Parsed(bytes)
  {
    hide DataIn, HeartbeatIn, AckNackIn, FlagSet, GetU16Le;
    if |bytes| < RTPS_HEADER_SIZE || bytes[..4] != MAGIC {
      return None;
    }
    if bytes[4] != VERSION_MAJOR || bytes[5] != VERSION_MINOR {
      return None;
    }
    var message := EmptyMessage(bytes);
    if message.vendorId == [0, 0] {
      return None;
    }
    var offset := RTPS_HEADER_SIZE;
    while offset < |bytes|
      invariant RTPS_HEADER_SIZE <= offset <= |bytes|
      invariant ParsedFrom(message, bytes[offset..]) == ParsedFrom(EmptyMessage(bytes), bytes[RTPS_HEADER_SIZE..])
    {
      ghost var rest := bytes[offset..];
      if |bytes| - offset < SUBMESSAGE_HEADER_SIZE {
        return None;
      }
      var kind, flags := bytes[offset], bytes[offset + 1];
      if !FlagSet(flags, LITTLE_ENDIAN_FLAG) {
        return None;
      }
      var submessageLength := GetU16Le(bytes, offset + 2);
      FieldInRest(bytes, offset);
      var bodyOffset := offset + SUBMESSAGE_HEADER_SIZE;
      var nextOffset := bodyOffset + submessageLength;
      if nextOffset > |bytes| {
        return None;
      }
      var body := bytes[bodyOffset..nextOffset];
      assert body == rest[SUBMESSAGE_HEADER_SIZE..SUBMESSAGE_HEADER_SIZE + submessageLength];
      var parsed: Option<Submessage> := None;
      if kind == DATA_KIND {
        parsed := DataIn(flags, body);
      } else if kind == HEARTBEAT_KIND {
        parsed := HeartbeatIn(flags, body);
      } else if kind == ACKNACK_KIND {
        parsed := ParseAckNack(flags, body);
      }
      if parsed.None? {
        return None;
      }
      message := Added(message, parsed.value);
      assert bytes[nextOffset..] == rest[nextOffset - offset..];
      offset := nextOffset;
    }
    if !HasAnySubmessage(message) {
      return None;
    }
    return Some(message);
  }

  lemma FieldInRest(bytes: seq<Byte>, offset: nat)
    requires offset + SUBMESSAGE_HEADER_SIZE <= |bytes|
    ensures GetU16Le(bytes, offset + 2) == GetU16Le(bytes[offset..], 2)
  {
  }
}
