/** The envelope around an event payload inside a DATA submessage. */
module SampleEnvelope {
  import opened Bytes
  import opened ServiceTypes
  import opened DdsTypes

  const ENVELOPE_MAGIC: seq<Byte> := [0x4F, 0x41, 0x44, 0x53]
  const ENVELOPE_VERSION: Byte := 1
  const ENVELOPE_HEADER_SIZE: nat := 22

  predicate Encodable(m: TopicMapping, s: EventSample) {
    s.service == m.araService && s.eventName == m.eventName && s.payload != [] && |s.payload| < U32_MODULUS
  }

  function EnvelopeHeader(m: TopicMapping, length: U32): (b: seq<Byte>)
    ensures |b| == ENVELOPE_HEADER_SIZE
  {
    ENVELOPE_MAGIC + [ENVELOPE_VERSION, 0]
    + PutU16Le(|m.topicName| % 0x1_0000) + PutU16Le(|m.typeName| % 0x1_0000)
    + PutU32Le(m.araService.interfaceId) + PutU32Le(m.araService.instanceId) + PutU32Le(length)
  }

  function Encoded(m: TopicMapping, s: EventSample): Option<seq<Byte>> {
    if Encodable(m, s) then Some(EnvelopeHeader(m, |s.payload|) + m.topicName + m.typeName + s.payload) else None
  }

  function Decoded(m: TopicMapping, b: seq<Byte>): Option<EventSample> {
    if |b| < ENVELOPE_HEADER_SIZE || b[..4] != ENVELOPE_MAGIC || b[4] != ENVELOPE_VERSION || b[5] != 0 then None
    else
      var typeAt := ENVELOPE_HEADER_SIZE + GetU16Le(b, 6);
      var sampleAt := typeAt + GetU16Le(b, 8);
      if |b| != sampleAt + GetU32Le(b, 18) then None
      else if GetU32Le(b, 10) != m.araService.interfaceId || GetU32Le(b, 14) != m.araService.instanceId then None
      else if b[ENVELOPE_HEADER_SIZE..typeAt] != m.topicName || b[typeAt..sampleAt] != m.typeName then None
      else if b[sampleAt..] == [] then None
      else Some(EventSample(m.araService, m.eventName, b[sampleAt..], 0))
  }

  method EncodeSamplePayload(m: TopicMapping, s: EventSample) returns (r: Option<seq<Byte>>)
    ensures r == Encoded(m, s)
  {
    hide PutU16Le, PutU32Le;
    if s.service != m.araService || s.eventName != m.eventName || s.payload == [] || |s.payload| >= U32_MODULUS {
      return None;
    }
    var payload := ENVELOPE_MAGIC;
    payload := payload + [ENVELOPE_VERSION];
    payload := payload + [0];
    payload := payload + PutU16Le(|m.topicName| % 0x1_0000);
    payload := payload + PutU16Le(|m.typeName| % 0x1_0000);
    payload := payload + PutU32Le(m.araService.interfaceId);
    payload := payload + PutU32Le(m.araService.instanceId);
    payload := payload + PutU32Le(|s.payload|);
    payload := payload + m.topicName;
    payload := payload + m.typeName;
    payload := payload + s.payload;
    assert payload == Encoded(m, s).value;
    return Some(payload);
  }

  lemma HeaderFields(m: TopicMapping, length: U32, b: seq<Byte>)
    requires ENVELOPE_HEADER_SIZE <= |b| && b[..ENVELOPE_HEADER_SIZE] == EnvelopeHeader(m, length)
    ensures b[..4] == ENVELOPE_MAGIC && b[4] == ENVELOPE_VERSION && b[5] == 0
    ensures GetU16Le(b, 6) == |m.topicName| % 0x1_0000 && GetU16Le(b, 8) == |m.typeName| % 0x1_0000
    ensures GetU32Le(b, 10) == m.araService.interfaceId && GetU32Le(b, 14) == m.araService.instanceId
    ensures GetU32Le(b, 18) == length
  {
    hide PutU16Le, PutU32Le, GetU16Le, GetU32Le;
    var h := b[..ENVELOPE_HEADER_SIZE];
    assert b[..4] == h[..4] && b[4] == h[4] && b[5] == h[5];
    assert b[6..8] == h[6..8] && b[8..10] == h[8..10];
    assert b[10..14] == h[10..14] && b[14..18] == h[14..18] && b[18..22] == h[18..22];
    ReadU16Le(b, 6, |m.topicName| % 0x1_0000);
    ReadU16Le(b, 8, |m.typeName| % 0x1_0000);
    ReadU32Le(b, 10, m.araService.interfaceId);
    ReadU32Le(b, 14, m.araService.instanceId);
    ReadU32Le(b, 18, length);
  }

  /**
   A payload encoded for one valid mapping is decoded under another exactly when service and instance id,
   topic and type agree, and then it is the payload that was encoded.
   */
  lemma EnvelopeRoundTrip(sender: TopicMapping, receiver: TopicMapping, s: EventSample)
    requires Encodable(sender, s) && ValidMapping(sender)
    ensures var d := Decoded(receiver, Encoded(sender, s).value);
      && (d.Some? <==>
            && receiver.araService.interfaceId == sender.araService.interfaceId
            && receiver.araService.instanceId == sender.araService.instanceId
            && receiver.topicName == sender.topicName && receiver.typeName == sender.typeName)
      && (d.Some? ==> d.value == EventSample(receiver.araService, receiver.eventName, s.payload, 0))
  {
    hide PutU16Le, PutU32Le, GetU16Le, GetU32Le, EnvelopeHeader;
    var b := Encoded(sender, s).value;
    HeaderFields(sender, |s.payload|, b);
    var typeAt := ENVELOPE_HEADER_SIZE + |sender.topicName|;
    var sampleAt := typeAt + |sender.typeName|;
    assert b[ENVELOPE_HEADER_SIZE..typeAt] == sender.topicName;
    assert b[typeAt..sampleAt] == sender.typeName;
    assert b[sampleAt..] == s.payload;
  }

  lemma HeaderIsFields(m: TopicMapping, b: seq<Byte>, length: U32)
    requires ENVELOPE_HEADER_SIZE <= |b|
    requires b[..4] == ENVELOPE_MAGIC && b[4] == ENVELOPE_VERSION && b[5] == 0
    requires GetU16Le(b, 6) == |m.topicName| && GetU16Le(b, 8) == |m.typeName|
    requires GetU32Le(b, 10) == m.araService.interfaceId && GetU32Le(b, 14) == m.araService.instanceId
    requires GetU32Le(b, 18) == length
    ensures b[..ENVELOPE_HEADER_SIZE] == EnvelopeHeader(m, length)
  {
    hide PutU16Le, PutU32Le, GetU16Le, GetU32Le;
    WriteU16Le(b, 6);
    WriteU16Le(b, 8);
    WriteU32Le(b, 10);
    WriteU32Le(b, 14);
    WriteU32Le(b, 18);
    assert b[..22] == b[..4] + [b[4], b[5]] + b[6..8] + b[8..10] + b[10..14] + b[14..18] + b[18..22];
  }

  /** A mapping decodes exactly the octets it encodes, to the sample they were encoded from. */
  lemma DecodedIsEncoded(m: TopicMapping, b: seq<Byte>, s: EventSample)
    requires ValidMapping(m)
    ensures Decoded(m, b) == Some(s) <==> Encoded(m, s) == Some(b) && s.sequence == 0
  {
    hide PutU16Le, PutU32Le, GetU16Le, GetU32Le, EnvelopeHeader;
    if Encoded(m, s) == Some(b) {
      EnvelopeRoundTrip(m, m, s);
    }
    if Decoded(m, b) == Some(s) {
      NamesAreWhole(m, b, s);
      HeaderIsFields(m, b, |s.payload|);
      var typeAt := ENVELOPE_HEADER_SIZE + |m.topicName|;
      var sampleAt := typeAt + |m.typeName|;
      assert b == b[..ENVELOPE_HEADER_SIZE] + b[ENVELOPE_HEADER_SIZE..typeAt] + b[typeAt..sampleAt] + b[sampleAt..];
    }
  }

  /** The lengths in the header of a decoded payload are those of its names and of the sample. */
  lemma NamesAreWhole(m: TopicMapping, b: seq<Byte>, s: EventSample)
    requires Decoded(m, b) == Some(s)
    ensures |b| >= ENVELOPE_HEADER_SIZE + |m.topicName| + |m.typeName|
    ensures GetU16Le(b, 6) == |m.topicName| && GetU16Le(b, 8) == |m.typeName| && GetU32Le(b, 18) == |s.payload|
    ensures s.payload == b[ENVELOPE_HEADER_SIZE + |m.topicName| + |m.typeName|..]
  {
    hide GetU16Le, GetU32Le;
    var typeAt := ENVELOPE_HEADER_SIZE + GetU16Le(b, 6);
    var sampleAt := typeAt + GetU16Le(b, 8);
    assert |b[ENVELOPE_HEADER_SIZE..typeAt]| == GetU16Le(b, 6) && |b[typeAt..sampleAt]| == GetU16Le(b, 8);
  }
}
