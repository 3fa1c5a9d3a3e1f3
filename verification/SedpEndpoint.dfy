/** SEDP endpoint announcements: the printed parameter list and its order-insensitive decoder. */
module SedpEndpoint {
  import opened Bytes
  import opened RtpsMessage
  import opened ServiceTypes
  import opened ParameterList
  import opened DiscoveryValues

  const PID_TOPIC_NAME: U16 := 0x0005
  const PID_TYPE_NAME: U16 := 0x0007
  const PID_RELIABILITY: U16 := 0x001A
  const PID_DURABILITY: U16 := 0x001D
  const PID_UNICAST_LOCATOR: U16 := 0x002F
  const PID_ENDPOINT_GUID: U16 := 0x005A
  const KNOWN_IDS: set<U16> := {
    PID_TOPIC_NAME, PID_TYPE_NAME, PID_RELIABILITY, PID_DURABILITY, PID_UNICAST_LOCATOR, PID_ENDPOINT_GUID
  }
  const GUID_SIZE: nat := 16
  const SEDP_RELIABILITY_BEST_EFFORT: U32 := 1
  const SEDP_RELIABILITY_RELIABLE: U32 := 3
  const SEDP_DURABILITY_VOLATILE: U32 := 0
  const SEDP_DURABILITY_TRANSIENT_LOCAL: U32 := 1

  datatype Endpoint = Endpoint(
    guidPrefix: GuidPrefix,
    endpointId: EntityId,
    topicName: Name,
    typeName: Name,
    locator: Locator,
    reliabilityKind: U32,
    durabilityKind: U32)

  predicate SupportedReliability(v: U32) {
    v == SEDP_RELIABILITY_BEST_EFFORT || v == SEDP_RELIABILITY_RELIABLE
  }

  predicate SupportedDurability(v: U32) {
    v == SEDP_DURABILITY_VOLATILE || v == SEDP_DURABILITY_TRANSIENT_LOCAL
  }

  // ----- values -----

  predicate NameFits(name: Name) {
    name != [] && |name| + 5 <= 0xFFFF
  }

  function StringValue(name: Name): (b: seq<Byte>)
    requires NameFits(name)
    ensures |b| == |name| + 5
  {
    PutU32Le(|name| + 1) + name + [0]
  }

  function ReadString(value: seq<Byte>): Option<Name> {
    if |value| < 5 then None
    else
      var size := GetU32Le(value, 0);
      if size == 0 || |value| != 4 + size || value[4 + size - 1] != 0 then None
      else Some(value[4..4 + size - 1])
  }

  lemma StringRoundTrip(name: Name)
    requires NameFits(name)
    ensures ReadString(StringValue(name)) == Some(name)
  {
    hide PutU32Le, GetU32Le;
    var b := StringValue(name);
    assert b[0..4] == PutU32Le(|name| + 1);
    ReadU32Le(b, 0, |name| + 1);
    assert b[4..4 + |name|] == name;
  }

  // ----- printing -----

  predicate Announceable(e: Endpoint) {
    && e.endpointId != NO_ENTITY
    && SupportedReliability(e.reliabilityKind) && SupportedDurability(e.durabilityKind)
    && NameFits(e.topicName) && NameFits(e.typeName)
  }

  function Parameters(e: Endpoint): (params: seq<Parameter>)
    requires Announceable(e)
    ensures AllPrintable(params)
  {
    [Parameter(PID_ENDPOINT_GUID, e.guidPrefix + e.endpointId),
     Parameter(PID_TOPIC_NAME, StringValue(e.topicName)),
     Parameter(PID_TYPE_NAME, StringValue(e.typeName)),
     Parameter(PID_UNICAST_LOCATOR, LocatorValue(e.locator)),
     Parameter(PID_RELIABILITY, PutU32Le(e.reliabilityKind)),
     Parameter(PID_DURABILITY, PutU32Le(e.durabilityKind))]
  }

  function Serialized(e: Endpoint): Option<seq<Byte>> {
    if Announceable(e) then Some(ListBytes(Parameters(e))) else None
  }

  // ----- decoding -----

  datatype ParseState = ParseState(
    guid: Option<(GuidPrefix, EntityId)>,
    topic: Option<Name>,
    typeName: Option<Name>,
    locator: Option<Locator>,
    reliability: Option<U32>,
    durability: Option<U32>)

  const NOTHING_SEEN := ParseState(None, None, None, None, None, None)

  /** The value of a known parameter is well formed. */
  predicate Accepts(p: Parameter) {
    if p.id == PID_ENDPOINT_GUID then |p.value| == GUID_SIZE && p.value[12..16] != NO_ENTITY
    else if p.id == PID_TOPIC_NAME || p.id == PID_TYPE_NAME then ReadString(p.value).Some?
    else if p.id == PID_UNICAST_LOCATOR then ReadLocator(p.value).Some?
    else if p.id == PID_RELIABILITY then |p.value| == 4 && SupportedReliability(GetU32Le(p.value, 0))
    else if p.id == PID_DURABILITY then |p.value| == 4 && SupportedDurability(GetU32Le(p.value, 0))
    else true
  }

  function Stored(s: ParseState, p: Parameter): ParseState
    requires Accepts(p)
  {
    if p.id == PID_ENDPOINT_GUID then s.(guid := Some((p.value[..12], p.value[12..16])))
    else if p.id == PID_TOPIC_NAME then s.(topic := ReadString(p.value))
    else if p.id == PID_TYPE_NAME then s.(typeName := ReadString(p.value))
    else if p.id == PID_UNICAST_LOCATOR then s.(locator := ReadLocator(p.value))
    else if p.id == PID_RELIABILITY then s.(reliability := Some(GetU32Le(p.value, 0)))
    else if p.id == PID_DURABILITY then s.(durability := Some(GetU32Le(p.value, 0)))
    else s
  }

  function ParseParameter(s: ParseState, p: Parameter): Option<ParseState> {
    if Accepts(p) then Some(Stored(s, p)) else None
  }

  function Finished(s: Option<ParseState>): Option<Endpoint> {
    if s.None? then None
    else
      match s.value
      case ParseState(Some(guid), Some(topic), Some(typeName), Some(locator), Some(reliability), Some(durability)) =>
        Some(Endpoint(guid.0, guid.1, topic, typeName, locator, reliability, durability))
      case _ => None
  }

  function Deserialized(payload: seq<Byte>): Option<Endpoint> {
    Finished(WalkedPayload(ParseParameter, NOTHING_SEEN, payload))
  }

  // ----- round trip, in any order and among unknown parameters -----

  lemma DecodeParameters(e: Endpoint)
    requires Announceable(e)
    ensures Finished(Decoded(ParseParameter, Some(NOTHING_SEEN), Parameters(e))) == Some(e)
  {
    hide PutU32Le, GetU32Le, StringValue, ReadString, LocatorValue, ReadLocator;
    StringRoundTrip(e.topicName);
    StringRoundTrip(e.typeName);
    LocatorRoundTrip(e.locator);
    U32RoundTrip(e.reliabilityKind);
    U32RoundTrip(e.durabilityKind);
    var guid := e.guidPrefix + e.endpointId;
    assert guid[..12] == e.guidPrefix && guid[12..16] == e.endpointId;
    var ps := Parameters(e);
    var s1 := ParseState(Some((e.guidPrefix, e.endpointId)), None, None, None, None, None);
    var s2 := s1.(topic := Some(e.topicName));
    var s3 := s2.(typeName := Some(e.typeName));
    var s4 := s3.(locator := Some(e.locator));
    var s5 := s4.(reliability := Some(e.reliabilityKind));
    var s6 := s5.(durability := Some(e.durabilityKind));
    assert ParseParameter(NOTHING_SEEN, ps[0]) == Some(s1);
    assert ParseParameter(s1, ps[1]) == Some(s2);
    assert ParseParameter(s2, ps[2]) == Some(s3);
    assert ParseParameter(s3, ps[3]) == Some(s4);
    assert ParseParameter(s4, ps[4]) == Some(s5);
    assert ParseParameter(s5, ps[5]) == Some(s6);
    StepsDecode(ParseParameter, ps, [NOTHING_SEEN, s1, s2, s3, s4, s5, s6]);
  }

  lemma StoresCommute(s: ParseState, p: Parameter, q: Parameter)
    requires p.id != q.id && Accepts(p) && Accepts(q)
    ensures Stored(Stored(s, p), q) == Stored(Stored(s, q), p)
  {
    hide GetU32Le, ReadString, ReadLocator;
  }

  lemma DifferentIdsCommute(p: Parameter, q: Parameter)
    requires p.id != q.id
    ensures Commute(ParseParameter, p, q)
  {
    hide Accepts, Stored;
    if Accepts(p) && Accepts(q) {
      forall s: ParseState
        ensures Then(ParseParameter, ParseParameter(s, p), q) == Then(ParseParameter, ParseParameter(s, q), p)
      {
        StoresCommute(s, p, q);
      }
    } else {
      RefusedCommutes(ParseParameter, p, q);
    }
  }

  lemma UnknownIsIgnored(p: Parameter)
    requires p.id !in KNOWN_IDS
    ensures Ignored(ParseParameter, p)
  {
    hide GetU32Le, ReadString, ReadLocator;
  }

  lemma ParametersCommute(e: Endpoint)
    requires Announceable(e)
    ensures AllCommute(ParseParameter, Parameters(e))
  {
    hide Commute, StringValue, LocatorValue, PutU32Le;
    var ps := Parameters(e);
    forall i, j | 0 <= i < j < |ps|
      ensures Commute(ParseParameter, ps[i], ps[j])
    {
      assert ps[i].id != ps[j].id;
      DifferentIdsCommute(ps[i], ps[j]);
    }
  }

  /** An announcement decodes to exactly the endpoint it was printed from. */
  lemma AnnouncementRoundTrip(e: Endpoint)
    requires Serialized(e).Some?
    ensures Deserialized(Serialized(e).value) == Some(e)
  {
    hide Parameters, ListBytes, WalkedPayload, Decoded, Finished;
    PayloadDecodes(ParseParameter, NOTHING_SEEN, Parameters(e), []);
    assert ListBytes(Parameters(e)) + [] == ListBytes(Parameters(e));
    DecodeParameters(e);
  }

  /**
   So does any list with the same known parameters in any order, with any unknown parameters anywhere
   among them, and whatever follows the sentinel.
   */
  lemma AnyOrderDecodes(e: Endpoint, params: seq<Parameter>, junk: seq<Byte>)
    requires Announceable(e) && AllPrintable(params)
    requires multiset(Known(KNOWN_IDS, params)) == multiset(Parameters(e))
    ensures Deserialized(ListBytes(params) + junk) == Some(e)
  {
    hide Parameters, ListBytes, WalkedPayload, Decoded, Finished, Known, ParseParameter, AllCommute, Ignored;
    hide AllPrintable;
    PayloadDecodes(ParseParameter, NOTHING_SEEN, params, junk);
    forall p: Parameter | p.id !in KNOWN_IDS
      ensures Ignored(ParseParameter, p)
    {
      UnknownIsIgnored(p);
    }
    UnknownAreIgnored(ParseParameter, Some(NOTHING_SEEN), KNOWN_IDS, params);
    ParametersCommute(e);
    OrderIsIrrelevant(ParseParameter, Some(NOTHING_SEEN), Parameters(e), Known(KNOWN_IDS, params));
    DecodeParameters(e);
  }

  // ----- the serializer and parser loops -----

  method SerializeSedpPayload(e: Endpoint) returns (r: Option<seq<Byte>>)
    ensures r == Serialized(e)
  {
    hide StringValue, LocatorValue, PutU32Le, ParameterBytes, WithParameter, Align4;
    if e.endpointId == NO_ENTITY {
      return None;
    }
    if !SupportedReliability(e.reliabilityKind) || !SupportedDurability(e.durabilityKind) {
      return None;
    }
    if !NameFits(e.topicName) || !NameFits(e.typeName) {
      return None;
    }
    var payload := CDR_LE_HEADER;
    payload := WriteParameter(payload, Parameter(PID_ENDPOINT_GUID, e.guidPrefix + e.endpointId));
    payload := WriteParameter(payload, Parameter(PID_TOPIC_NAME, StringValue(e.topicName)));
    payload := WriteParameter(payload, Parameter(PID_TYPE_NAME, StringValue(e.typeName)));
    payload := WriteParameter(payload, Parameter(PID_UNICAST_LOCATOR, LocatorValue(e.locator)));
    payload := WriteParameter(payload, Parameter(PID_RELIABILITY, PutU32Le(e.reliabilityKind)));
    payload := WriteParameter(payload, Parameter(PID_DURABILITY, PutU32Le(e.durabilityKind)));
    payload := payload + SENTINEL_BYTES;
    SixParameters(Parameters(e));
    return Some(payload);
  }

  lemma SixParameters(ps: seq<Parameter>)
    requires |ps| == 6
    ensures ListBytes(ps) == CDR_LE_HEADER + ParameterBytes(ps[0]) + ParameterBytes(ps[1]) + ParameterBytes(ps[2])
      + ParameterBytes(ps[3]) + ParameterBytes(ps[4]) + ParameterBytes(ps[5]) + SENTINEL_BYTES
  {
    hide ParameterBytes;
    assert AllParameters(ps[6..]) == [];
    assert AllParameters(ps[5..]) == ParameterBytes(ps[5]);
    assert AllParameters(ps[4..]) == ParameterBytes(ps[4]) + AllParameters(ps[5..]);
    assert AllParameters(ps[3..]) == ParameterBytes(ps[3]) + AllParameters(ps[4..]);
    assert AllParameters(ps[2..]) == ParameterBytes(ps[2]) + AllParameters(ps[3..]);
    assert AllParameters(ps[1..]) == ParameterBytes(ps[1]) + AllParameters(ps[2..]);
  }

  method DeserializeSedpPayload(payload: seq<Byte>) returns (r: Option<Endpoint>)
    ensures r == Deserialized(payload)
  {
    var state := WalkPayload(ParseParameter, NOTHING_SEEN, payload);
    return Finished(state);
  }
}
