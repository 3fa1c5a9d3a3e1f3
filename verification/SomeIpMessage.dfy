/** SOME/IP messages: the 16-octet header, the serializer and the parser. */
module SomeIpMessage {
  import opened Bytes

  const PROTOCOL_VERSION: Byte := 1
  const HEADER_SIZE: nat := 16
  const LENGTH_BASE: nat := 8
  const MAX_PAYLOAD_SIZE: nat := 1400

  datatype MessageType = Request | RequestNoReturn | Notification | Response | Error

  datatype ReturnCode = Ok | NotOk | UnknownService | UnknownMethod | MalformedMessage

  datatype Header = Header(
    serviceId: U16,
    methodId: U16,
    clientId: U16,
    sessionId: U16,
    protocolVersion: Byte,
    interfaceVersion: Byte,
    messageType: MessageType,
    returnCode: ReturnCode)

  datatype Message = Message(header: Header, payload: seq<Byte>)

  function TypeValue(t: MessageType): Byte {
    match t
    case Request => 0x00
    case RequestNoReturn => 0x01
    case Notification => 0x02
    case Response => 0x80
    case Error => 0x81
  }

  function TypeOf(v: Byte): Option<MessageType> {
    if v == 0x00 then Some(Request)
    else if v == 0x01 then Some(RequestNoReturn)
    else if v == 0x02 then Some(Notification)
    else if v == 0x80 then Some(Response)
    else if v == 0x81 then Some(Error)
    else None
  }

  function CodeValue(c: ReturnCode): Byte {
    match c
    case Ok => 0x00
    case NotOk => 0x01
    case UnknownService => 0x02
    case UnknownMethod => 0x03
    case MalformedMessage => 0x09
  }

  function CodeOf(v: Byte): Option<ReturnCode> {
    if v == 0x00 then Some(Ok)
    else if v == 0x01 then Some(NotOk)
    else if v == 0x02 then Some(UnknownService)
    else if v == 0x03 then Some(UnknownMethod)
    else if v == 0x09 then Some(MalformedMessage)
    else None
  }

  predicate FitsUdpPayload(m: Message) {
    HEADER_SIZE + |m.payload| <= MAX_PAYLOAD_SIZE
  }

  function HeaderBytes(h: Header, length: U32): (b: seq<Byte>)
    ensures |b| == HEADER_SIZE
  {
    PutU16Be(h.serviceId) + PutU16Be(h.methodId) + PutU32Be(length) + PutU16Be(h.clientId) + PutU16Be(h.sessionId)
    + [h.protocolVersion, h.interfaceVersion, TypeValue(h.messageType), CodeValue(h.returnCode)]
  }

  predicate Sendable(m: Message) {
    FitsUdpPayload(m) && m.header.serviceId != 0 && m.header.protocolVersion == PROTOCOL_VERSION
  }

  function Serialized(m: Message): (r: Option<seq<Byte>>)
    ensures r.Some? ==> |r.value| == HEADER_SIZE + |m.payload|
  {
    if Sendable(m) then Some(HeaderBytes(m.header, LENGTH_BASE + |m.payload|) + m.payload) else None
  }

  function Deserialized(b: seq<Byte>): Option<Message> {
    if |b| < HEADER_SIZE || GetU32Be(b, 4) < LENGTH_BASE || |b| != HEADER_SIZE + GetU32Be(b, 4) - LENGTH_BASE then None
    else if b[12] != PROTOCOL_VERSION || TypeOf(b[14]).None? || CodeOf(b[15]).None? then None
    else
      Some(Message(
        Header(
          GetU16Be(b, 0), GetU16Be(b, 2), GetU16Be(b, 8), GetU16Be(b, 10), b[12], b[13],
          TypeOf(b[14]).value, CodeOf(b[15]).value),
        b[16..]))
  }

  method SerializeMessage(m: Message) returns (r: Option<seq<Byte>>)
    ensures r == Serialized(m)
  {
    hide PutU16Be, PutU32Be;
    if !FitsUdpPayload(m) || m.header.serviceId == 0 || m.header.protocolVersion != PROTOCOL_VERSION {
      return None;
    }
    var bytes := PutU16Be(m.header.serviceId);
    bytes := bytes + PutU16Be(m.header.methodId);
    bytes := bytes + PutU32Be(LENGTH_BASE + |m.payload|);
    bytes := bytes + PutU16Be(m.header.clientId);
    bytes := bytes + PutU16Be(m.header.sessionId);
    bytes := bytes + [m.header.protocolVersion];
    bytes := bytes + [m.header.interfaceVersion];
    bytes := bytes + [TypeValue(m.header.messageType)];
    bytes := bytes + [CodeValue(m.header.returnCode)];
    bytes := bytes + m.payload;
    assert bytes == Serialized(m).value;
    return Some(bytes);
  }

  // ----- printing and parsing are inverse -----

  predicate HeaderAt(b: seq<Byte>, h: Header, length: U32) {
    && HEADER_SIZE <= |b|
    && b[0..2] == PutU16Be(h.serviceId) && b[2..4] == PutU16Be(h.methodId) && b[4..8] == PutU32Be(length)
    && b[8..10] == PutU16Be(h.clientId) && b[10..12] == PutU16Be(h.sessionId)
    && b[12] == h.protocolVersion && b[13] == h.interfaceVersion
    && b[14] == TypeValue(h.messageType) && b[15] == CodeValue(h.returnCode)
  }

  lemma HeaderFields(h: Header, length: U32, rest: seq<Byte>)
    ensures HeaderAt(HeaderBytes(h, length) + rest, h, length)
  {
    hide PutU16Be, PutU32Be, TypeValue, CodeValue;
  }

  lemma HeaderIsRead(b: seq<Byte>, h: Header, length: U32)
    requires HeaderAt(b, h, length)
    ensures GetU16Be(b, 0) == h.serviceId && GetU16Be(b, 2) == h.methodId && GetU32Be(b, 4) == length
    ensures GetU16Be(b, 8) == h.clientId && GetU16Be(b, 10) == h.sessionId
    ensures TypeOf(b[14]) == Some(h.messageType) && CodeOf(b[15]) == Some(h.returnCode)
  {
    hide PutU16Be, PutU32Be, GetU16Be, GetU32Be;
    ReadU16Be(b, 0, h.serviceId);
    ReadU16Be(b, 2, h.methodId);
    ReadU32Be(b, 4, length);
    ReadU16Be(b, 8, h.clientId);
    ReadU16Be(b, 10, h.sessionId);
  }

  /** A serialized message parses back to itself. */
  lemma ParseSerialized(m: Message)
    requires Serialized(m).Some?
    ensures Deserialized(Serialized(m).value) == Some(m)
  {
    hide PutU16Be, PutU32Be, GetU16Be, GetU32Be, HeaderBytes, TypeOf, CodeOf;
    var b, length := Serialized(m).value, LENGTH_BASE + |m.payload|;
    HeaderFields(m.header, length, m.payload);
    HeaderIsRead(b, m.header, length);
    assert b[16..] == m.payload;
  }

  lemma HeaderIsUnique(a: seq<Byte>, b: seq<Byte>, h: Header, length: U32)
    requires HeaderAt(a, h, length) && HeaderAt(b, h, length)
    ensures a[..16] == b[..16]
  {
    hide PutU16Be, PutU32Be, TypeValue, CodeValue;
    assert a[..16] == a[0..2] + a[2..4] + a[4..8] + a[8..10] + a[10..12] + [a[12], a[13], a[14], a[15]];
    assert b[..16] == b[0..2] + b[2..4] + b[4..8] + b[8..10] + b[10..12] + [b[12], b[13], b[14], b[15]];
  }

  lemma ReadHeaderIsAt(b: seq<Byte>)
    requires Deserialized(b).Some?
    ensures HeaderAt(b, Deserialized(b).value.header, LENGTH_BASE + |Deserialized(b).value.payload|)
  {
    hide PutU16Be, PutU32Be, GetU16Be, GetU32Be;
    WriteU16Be(b, 0);
    WriteU16Be(b, 2);
    WriteU32Be(b, 4);
    WriteU16Be(b, 8);
    WriteU16Be(b, 10);
  }

  /** A parsed message serializes exactly when its service id is not zero and it fits, and then to the same octets. */
  lemma SerializeParsed(b: seq<Byte>)
    requires Deserialized(b).Some?
    ensures var m := Deserialized(b).value;
      Serialized(m) == if m.header.serviceId != 0 && |b| <= MAX_PAYLOAD_SIZE then Some(b) else None
  {
    hide PutU16Be, PutU32Be, GetU16Be, GetU32Be, HeaderBytes, TypeOf, CodeOf, HeaderAt;
    var m, length := Deserialized(b).value, GetU32Be(b, 4);
    ReadHeaderIsAt(b);
    HeaderFields(m.header, length, m.payload);
    HeaderIsUnique(b, HeaderBytes(m.header, length) + m.payload, m.header, length);
    assert b == b[..16] + b[16..];
    assert (HeaderBytes(m.header, length) + m.payload)[..16] == HeaderBytes(m.header, length);
  }
}
