/** The protected frame of the E2E layer: header layout, parser and the octets the CRC covers. */
module E2eFrame {
  import opened Bytes

  const HEADER_SIZE: nat := 32
  const VERSION: Byte := 1
  const MAGIC: seq<Byte> := [0x4F, 0x41, 0x45, 0x32]

  datatype Profile = Profile01 | Profile05

  datatype CheckStatus =
    | Ok
    | FaultInjected
    | Repeated
    | WrongSequence
    | Timeout
    | WrongProfile
    | WrongDataId
    | CrcMismatch
    | Malformed

  datatype FrameHeader = FrameHeader(
    profile: Profile,
    dataId: U32,
    counter: U32,
    timestampMs: U64,
    payloadLength: U32,
    crc32: U32)

  const EMPTY_HEADER := FrameHeader(Profile01, 0, 0, 0, 0, 0)

  datatype ParseResult = ParseResult(status: CheckStatus, header: FrameHeader, payload: seq<Byte>)

  function ProfileWireValue(p: Profile): Byte {
    match p
    case Profile01 => 1
    case Profile05 => 5
  }

  function ProfileFromWire(value: Byte): Option<Profile> {
    if value == 1 then Some(Profile01) else if value == 5 then Some(Profile05) else None
  }

  // ----- layout -----

  function HeaderBytes(h: FrameHeader): (b: seq<Byte>)
    ensures |b| == HEADER_SIZE
  {
    MAGIC + [VERSION, ProfileWireValue(h.profile)] + PutU16Be(0)
    + PutU32Be(h.dataId) + PutU32Be(h.counter) + PutU64Be(h.timestampMs)
    + PutU32Be(h.payloadLength) + PutU32Be(h.crc32)
  }

  function Serialized(h: FrameHeader, payload: seq<Byte>): (frame: seq<Byte>)
    ensures |frame| == HEADER_SIZE + |payload|
  {
    HeaderBytes(h) + payload
  }

  /** The octets under the CRC: everything after the magic, with the CRC field zeroed. */
  function CrcMaterial(h: FrameHeader, payload: seq<Byte>): seq<Byte> {
    Serialized(h.(crc32 := 0), payload)[4..]
  }

  /** The same octets taken from a received frame. */
  function CoveredOctets(frame: seq<Byte>): seq<Byte>
    requires HEADER_SIZE <= |frame|
  {
    frame[4..28] + [0, 0, 0, 0] + frame[32..]
  }

  function DecodedHeader(frame: seq<Byte>, profile: Profile): FrameHeader
    requires HEADER_SIZE <= |frame|
  {
    FrameHeader(
      profile, GetU32Be(frame, 8), GetU32Be(frame, 12), GetU64Be(frame, 16), GetU32Be(frame, 24), GetU32Be(frame, 28))
  }

  function Parsed(frame: seq<Byte>): (r: ParseResult)
    ensures r.status == Ok || r.status == Malformed || r.status == WrongProfile
  {
    if |frame| < HEADER_SIZE || frame[..4] != MAGIC || frame[4] != VERSION then
      ParseResult(Malformed, EMPTY_HEADER, [])
    else if ProfileFromWire(frame[5]).None? then
      ParseResult(WrongProfile, EMPTY_HEADER, [])
    else if GetU16Be(frame, 6) != 0 then
      ParseResult(Malformed, EMPTY_HEADER, [])
    else
      var header := DecodedHeader(frame, ProfileFromWire(frame[5]).value);
      if HEADER_SIZE + header.payloadLength != |frame| then
        ParseResult(Malformed, header, [])
      else
        ParseResult(Ok, header, frame[32..])
  }

  // ----- the imperative serializer and parser -----

  method SerializeFrameWithCrc(h: FrameHeader, payload: seq<Byte>) returns (frame: seq<Byte>)
    ensures frame == Serialized(h, payload)
  {
    frame := MAGIC;
    frame := frame + [VERSION];
    frame := frame + [ProfileWireValue(h.profile)];
    frame := frame + PutU16Be(0);
    frame := frame + PutU32Be(h.dataId);
    frame := frame + PutU32Be(h.counter);
    frame := frame + PutU64Be(h.timestampMs);
    frame := frame + PutU32Be(h.payloadLength);
    frame := frame + PutU32Be(h.crc32);
    frame := frame + payload;
  }

  method BuildCrcMaterial(h: FrameHeader, payload: seq<Byte>) returns (material: seq<Byte>)
    ensures material == CrcMaterial(h, payload)
  {
    var frame := SerializeFrameWithCrc(h, payload);
    HeaderFields(h);
    HeaderFields(h.(crc32 := 0));
    frame := frame[28 := 0];
    frame := frame[29 := 0];
    frame := frame[30 := 0];
    frame := frame[31 := 0];
    assert PutU32Be(0) == [0, 0, 0, 0];
    assert frame == HeaderBytes(h)[..28] + [0, 0, 0, 0] + payload;
    assert HeaderBytes(h.(crc32 := 0)) == HeaderBytes(h)[..28] + HeaderBytes(h.(crc32 := 0))[28..32];
    material := frame[4..];
  }

  method ParseProtectedFrame(frame: seq<Byte>) returns (result: ParseResult)
    ensures result == Parsed(frame)
  {
    if |frame| < HEADER_SIZE {
      return ParseResult(Malformed, EMPTY_HEADER, []);
    }
    for index := 0 to |MAGIC|
      invariant frame[..index] == MAGIC[..index]
    {
      if frame[index] != MAGIC[index] {
        assert frame[..4][index] != MAGIC[index];
        return ParseResult(Malformed, EMPTY_HEADER, []);
      }
    }
    if frame[4] != VERSION {
      return ParseResult(Malformed, EMPTY_HEADER, []);
    }
    var profile := ProfileFromWire(frame[5]);
    if profile.None? {
      return ParseResult(WrongProfile, EMPTY_HEADER, []);
    }
    if GetU16Be(frame, 6) != 0 {
      return ParseResult(Malformed, EMPTY_HEADER, []);
    }
    var header := FrameHeader(
      profile.value, GetU32Be(frame, 8), GetU32Be(frame, 12),
      GetU64Be(frame, 16), GetU32Be(frame, 24), GetU32Be(frame, 28));
    if HEADER_SIZE + header.payloadLength != |frame| {
      return ParseResult(Malformed, header, []);
    }
    return ParseResult(Ok, header, frame[32..]);
  }

  // ----- printing and parsing are inverse -----

  /** The first 32 octets of `b` are the header `h`, field by field. */
  predicate HeaderAt(b: seq<Byte>, h: FrameHeader) {
    && HEADER_SIZE <= |b|
    && b[..4] == MAGIC
    && b[4] == VERSION && b[5] == ProfileWireValue(h.profile) && b[6] == 0 && b[7] == 0
    && b[8..12] == PutU32Be(h.dataId)
    && b[12..16] == PutU32Be(h.counter)
    && b[16..24] == PutU64Be(h.timestampMs)
    && b[24..28] == PutU32Be(h.payloadLength)
    && b[28..32] == PutU32Be(h.crc32)
  }

  lemma HeaderFields(h: FrameHeader)
    ensures HeaderAt(HeaderBytes(h), h)
    ensures HeaderBytes(h)[..28] == HeaderBytes(h.(crc32 := 0))[..28]
  {
  }

  lemma FrameStartsWithHeader(h: FrameHeader, payload: seq<Byte>)
    ensures HeaderAt(Serialized(h, payload), h)
    ensures |Serialized(h, payload)| == HEADER_SIZE + |payload|
    ensures Serialized(h, payload)[32..] == payload
  {
    HeaderFields(h);
    var frame, head := Serialized(h, payload), HeaderBytes(h);
    assert forall lo, hi {:trigger frame[lo..hi]} :: 0 <= lo <= hi <= 32 ==> frame[lo..hi] == head[lo..hi];
    assert frame[..4] == head[..4];
  }

  lemma HeaderIsDecoded(b: seq<Byte>, h: FrameHeader)
    requires HeaderAt(b, h)
    ensures DecodedHeader(b, h.profile) == h
  {
    ReadU32Be(b, 8, h.dataId);
    ReadU32Be(b, 12, h.counter);
    ReadU64Be(b, 16, h.timestampMs);
    ReadU32Be(b, 24, h.payloadLength);
    ReadU32Be(b, 28, h.crc32);
  }

  lemma DecodedIsHeader(b: seq<Byte>, profile: Profile)
    requires HEADER_SIZE <= |b| && b[..4] == MAGIC && b[4] == VERSION
    requires b[5] == ProfileWireValue(profile) && b[6] == 0 && b[7] == 0
    ensures HeaderAt(b, DecodedHeader(b, profile))
  {
    WriteU32Be(b, 8);
    WriteU32Be(b, 12);
    WriteU64Be(b, 16);
    WriteU32Be(b, 24);
    WriteU32Be(b, 28);
  }

  lemma HeaderIsUnique(a: seq<Byte>, b: seq<Byte>, h: FrameHeader)
    requires HeaderAt(a, h) && HeaderAt(b, h)
    ensures a[..32] == b[..32]
  {
    assert a[..32] == a[..4] + [a[4], a[5], a[6], a[7]] + a[8..12] + a[12..16] + a[16..24] + a[24..28] + a[28..32];
    assert b[..32] == b[..4] + [b[4], b[5], b[6], b[7]] + b[8..12] + b[12..16] + b[16..24] + b[24..28] + b[28..32];
  }

  lemma ReservedIsZero(frame: seq<Byte>)
    requires 8 <= |frame|
    ensures GetU16Be(frame, 6) == 0 <==> frame[6] == 0 && frame[7] == 0
  {
  }

  lemma ParseHeaderAt(frame: seq<Byte>, h: FrameHeader)
    requires HeaderAt(frame, h) && |frame| == HEADER_SIZE + h.payloadLength
    ensures Parsed(frame) == ParseResult(Ok, h, frame[32..])
  {
    hide GetU16Be, GetU32Be, GetU64Be, PutU16Be, PutU32Be, PutU64Be;
    HeaderIsDecoded(frame, h);
    ReservedIsZero(frame);
  }

  lemma HeaderOfParsed(frame: seq<Byte>)
    requires Parsed(frame).status == Ok
    ensures HeaderAt(frame, Parsed(frame).header)
    ensures Parsed(frame).payload == frame[32..] && |frame| == HEADER_SIZE + Parsed(frame).header.payloadLength
  {
    hide GetU16Be, GetU32Be, GetU64Be, PutU16Be, PutU32Be, PutU64Be;
    ReservedIsZero(frame);
    DecodedIsHeader(frame, Parsed(frame).header.profile);
  }

  lemma FrameIsSerialized(frame: seq<Byte>, h: FrameHeader)
    requires HeaderAt(frame, h)
    ensures frame == Serialized(h, frame[32..])
  {
    HeaderFields(h);
    HeaderIsUnique(frame, HeaderBytes(h), h);
    assert frame == frame[..32] + frame[32..];
  }

  /** A serialized frame parses back to exactly its header and payload. */
  lemma ParseSerialized(h: FrameHeader, payload: seq<Byte>)
    requires h.payloadLength == |payload|
    ensures Parsed(Serialized(h, payload)) == ParseResult(Ok, h, payload)
  {
    FrameStartsWithHeader(h, payload);
    ParseHeaderAt(Serialized(h, payload), h);
  }

  /** Conversely, an accepted frame is the serialization of what was parsed from it. */
  lemma SerializeParsed(frame: seq<Byte>)
    requires Parsed(frame).status == Ok
    ensures frame == Serialized(Parsed(frame).header, Parsed(frame).payload)
    ensures Parsed(frame).header.payloadLength == |Parsed(frame).payload|
  {
    hide GetU16Be, GetU32Be, GetU64Be, PutU16Be, PutU32Be, PutU64Be;
    HeaderOfParsed(frame);
    FrameIsSerialized(frame, Parsed(frame).header);
  }

  /** The octets fed to the CRC are the covered part of the frame. */
  lemma MaterialOfFrame(h: FrameHeader, payload: seq<Byte>)
    ensures HEADER_SIZE <= |Serialized(h, payload)|
    ensures CrcMaterial(h, payload) == CoveredOctets(Serialized(h, payload))
  {
    var head, zeroed := HeaderBytes(h), HeaderBytes(h.(crc32 := 0));
    HeaderFields(h);
    HeaderFields(h.(crc32 := 0));
    assert PutU32Be(0) == [0, 0, 0, 0];
    assert zeroed == zeroed[..28] + zeroed[28..32];
    assert head == head[..28] + head[28..32];
  }
}
