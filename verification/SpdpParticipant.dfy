/** SPDP participant announcements: the printed parameter list, its decoder and lease durations. */
module SpdpParticipant {
  import opened Bytes
  import opened RtpsMessage
  import opened ParameterList
  import opened DiscoveryValues

  const PID_LEASE_DURATION: U16 := 0x0002
  const PID_PROTOCOL_VERSION: U16 := 0x0015
  const PID_VENDOR_ID: U16 := 0x0016
  const PID_DEFAULT_LOCATOR: U16 := 0x0031
  const PID_METATRAFFIC_LOCATOR: U16 := 0x0032
  const PID_PARTICIPANT_GUID: U16 := 0x0050
  const PID_ENDPOINT_SET: U16 := 0x0058
  const KNOWN_IDS: set<U16> := {
    PID_LEASE_DURATION, PID_PROTOCOL_VERSION, PID_VENDOR_ID, PID_DEFAULT_LOCATOR, PID_METATRAFFIC_LOCATOR,
    PID_PARTICIPANT_GUID, PID_ENDPOINT_SET
  }
  const GUID_SIZE: nat := 16
  const PARTICIPANT_ENTITY: EntityId := [0x00, 0x00, 0x01, 0xC1]
  const NANOS_PER_MS: nat := 1_000_000
  const MAX_SECONDS: nat := 4_294_967

  datatype Participant = Participant(
    guidPrefix: GuidPrefix,
    vendorId: VendorId,
    metatrafficLocator: Locator,
    defaultLocator: Locator,
    builtinEndpointSet: U32,
    leaseDurationMs: U32)

  // ----- durations -----

  function DurationValue(ms: U32): (b: seq<Byte>)
    ensures |b| == 8
  {
    PutU32Le(ms / 1000) + PutU32Le(ms % 1000 * NANOS_PER_MS)
  }

  /** Seconds and nanoseconds in milliseconds, in 32-bit arithmetic. */
  function ReadDuration(value: seq<Byte>): Option<U32> {
    if |value| != 8 || GetU32Le(value, 0) > MAX_SECONDS then None
    else Some((GetU32Le(value, 0) as int * 1000 + GetU32Le(value, 4) / NANOS_PER_MS) % U32_MODULUS)
  }

  lemma DurationRoundTrip(ms: U32)
    ensures ReadDuration(DurationValue(ms)) == Some(ms)
  {
    hide PutU32Le, GetU32Le;
    var b := DurationValue(ms);
    assert b[0..4] == PutU32Le(ms / 1000) && b[4..8] == PutU32Le(ms % 1000 * NANOS_PER_MS);
    ReadU32Le(b, 0, ms / 1000);
    ReadU32Le(b, 4, ms % 1000 * NANOS_PER_MS);
  }

  // ----- printing -----

  predicate Announceable(p: Participant) {
    p.vendorId != [0, 0] && p.builtinEndpointSet != 0 && p.leaseDurationMs != 0
  }

  function Parameters(p: Participant): (params: seq<Parameter>)
    ensures AllPrintable(params) && |params| == 7
  {
    [Parameter(PID_PROTOCOL_VERSION, [VERSION_MAJOR, VERSION_MINOR, 0, 0]),
     Parameter(PID_VENDOR_ID, p.vendorId + [0, 0]),
     Parameter(PID_PARTICIPANT_GUID, p.guidPrefix + PARTICIPANT_ENTITY),
     Parameter(PID_METATRAFFIC_LOCATOR, LocatorValue(p.metatrafficLocator)),
     Parameter(PID_DEFAULT_LOCATOR, LocatorValue(p.defaultLocator)),
     Parameter(PID_ENDPOINT_SET, PutU32Le(p.builtinEndpointSet)),
     Parameter(PID_LEASE_DURATION, DurationValue(p.leaseDurationMs))]
  }

  function Serialized(p: Participant): Option<seq<Byte>> {
    if Announceable(p) then Some(ListBytes(Parameters(p))) else None
  }

  // ----- decoding -----

  datatype ParseState = ParseState(
    versionSeen: bool,
    vendorId: Option<VendorId>,
    guidPrefix: Option<GuidPrefix>,
    metatraffic: Option<Locator>,
    ordinaryLocator: Option<Locator>,
    endpointSet: Option<U32>,
    lease: Option<U32>)

  const NOTHING_SEEN := ParseState(false, None, None, None, None, None, None)

  /** The value of a known parameter is well formed. */
  predicate Accepts(p: Parameter) {
    if p.id == PID_PROTOCOL_VERSION then |p.value| == 4 && p.value[0] == VERSION_MAJOR && p.value[1] == VERSION_MINOR
    else if p.id == PID_VENDOR_ID then |p.value| == 4 && p.value[..2] != [0, 0]
    else if p.id == PID_PARTICIPANT_GUID then |p.value| == GUID_SIZE && p.value[12..16] == PARTICIPANT_ENTITY
    else if p.id == PID_METATRAFFIC_LOCATOR || p.id == PID_DEFAULT_LOCATOR then ReadLocator(p.value).Some?
    else if p.id == PID_ENDPOINT_SET then |p.value| == 4
    else if p.id == PID_LEASE_DURATION then ReadDuration(p.value).Some?
    else true
  }

  function Stored(s: ParseState, p: Parameter): ParseState
    requires Accepts(p)
  {
    if p.id == PID_PROTOCOL_VERSION then s.(versionSeen := true)
    else if p.id == PID_VENDOR_ID then s.(vendorId := Some(p.value[..2]))
    else if p.id == PID_PARTICIPANT_GUID then s.(guidPrefix := Some(p.value[..12]))
    else if p.id == PID_METATRAFFIC_LOCATOR then s.(metatraffic := ReadLocator(p.value))
    else if p.id == PID_DEFAULT_LOCATOR then s.(ordinaryLocator := ReadLocator(p.value))
    else if p.id == PID_ENDPOINT_SET then s.(endpointSet := Some(GetU32Le(p.value, 0)))
    else if p.id == PID_LEASE_DURATION then s.(lease := ReadDuration(p.value))
    else s
  }

  function ParseParameter(s: ParseState, p: Parameter): Option<ParseState> {
    if Accepts(p) then Some(Stored(s, p)) else None
  }

  function Finished(s: Option<ParseState>): Option<Participant> {
    if s.None? then None
    else
      match s.value
      case ParseState(true, Some(vendor), Some(guid), Some(metatraffic), Some(other), Some(endpoints), Some(lease)) =>
        Some(Participant(guid, vendor, metatraffic, other, endpoints, lease))
      case _ => None
  }

  function Deserialized(payload: seq<Byte>): Option<Participant> {
    Finished(WalkedPayload(ParseParameter, NOTHING_SEEN, payload))
  }

  // ----- round trip, in any order and among unknown parameters -----

  lemma FixedValues(p: Participant)
    ensures (p.vendorId + [0, 0])[..2] == p.vendorId && |p.vendorId + [0, 0]| == 4
    ensures var guid := p.guidPrefix + PARTICIPANT_ENTITY;
      guid[..12] == p.guidPrefix && guid[12..16] == PARTICIPANT_ENTITY
  {
  }

  lemma DecodeParameters(p: Participant)
    requires Announceable(p)
    ensures Finished(Decoded(ParseParameter, Some(NOTHING_SEEN), Parameters(p))) == Some(p)
  {
    hide PutU32Le, GetU32Le, DurationValue, ReadDuration, LocatorValue, ReadLocator, Decoded, AllPrintable;
    LocatorRoundTrip(p.metatrafficLocator);
    LocatorRoundTrip(p.defaultLocator);
    U32RoundTrip(p.builtinEndpointSet);
    DurationRoundTrip(p.leaseDurationMs);
    FixedValues(p);
    var ps := Parameters(p);
    var s1 := NOTHING_SEEN.(versionSeen := true);
    var s2 := s1.(vendorId := Some(p.vendorId));
    var s3 := s2.(guidPrefix := Some(p.guidPrefix));
    var s4 := s3.(metatraffic := Some(p.metatrafficLocator));
    var s5 := s4.(ordinaryLocator := Some(p.defaultLocator));
    var s6 := s5.(endpointSet := Some(p.builtinEndpointSet));
    var s7 := s6.(lease := Some(p.leaseDurationMs));
    assert ParseParameter(NOTHING_SEEN, ps[0]) == Some(s1);
    assert ParseParameter(s1, ps[1]) == Some(s2);
    assert ParseParameter(s2, ps[2]) == Some(s3);
    assert ParseParameter(s3, ps[3]) == Some(s4);
    assert ParseParameter(s4, ps[4]) == Some(s5);
    assert ParseParameter(s5, ps[5]) == Some(s6);
    assert ParseParameter(s6, ps[6]) == Some(s7);
    StepsDecode(ParseParameter, ps, [NOTHING_SEEN, s1, s2, s3, s4, s5, s6, s7]);
  }

  lemma StoresCommute(s: ParseState, p: Parameter, q: Parameter)
    requires p.id != q.id && Accepts(p) && Accepts(q)
    ensures Stored(Stored(s, p), q) == Stored(Stored(s, q), p)
  {
    hide GetU32Le, ReadDuration, ReadLocator;
  }

  lemma DifferentIdsCommute(p: Parameter, q: Parameter)
    requires p.id != q.id
    ensures Commute(ParseParameter, p, q)
  {
    hide Accepts, Stored;
    if Accepts(p) && Accepts(q) {
      forall s: ParseState
        ensures Then(ParseParameter, ParseParameter(s, p), q) == Then(ParseParameter, ParseParameter(s, q), p)
      {
        StoresCommute(s, p, q);
      }
    } else {
      RefusedCommutes(ParseParameter, p, q);
    }
  }

  lemma UnknownIsIgnored(p: Parameter)
    requires p.id !in KNOWN_IDS
    ensures Ignored(ParseParameter, p)
  {
    hide GetU32Le, ReadDuration, ReadLocator;
  }

  lemma ParametersCommute(p: Participant)
    ensures AllCommute(ParseParameter, Parameters(p))
  {
    hide Commute, DurationValue, LocatorValue, PutU32Le;
    var ps := Parameters(p);
    forall i, j | 0 <= i < j < |ps|
      ensures Commute(ParseParameter, ps[i], ps[j])
    {
      assert ps[i].id != ps[j].id;
      DifferentIdsCommute(ps[i], ps[j]);
    }
  }

  /** An announcement decodes to exactly the participant it was printed from, whatever its lease duration. */
  lemma AnnouncementRoundTrip(p: Participant)
    requires Serialized(p).Some?
    ensures Deserialized(Serialized(p).value) == Some(p)
  {
    hide Parameters, ListBytes, WalkedPayload, Decoded, Finished;
    PayloadDecodes(ParseParameter, NOTHING_SEEN, Parameters(p), []);
    assert ListBytes(Parameters(p)) + [] == ListBytes(Parameters(p));
    DecodeParameters(p);
  }

  /** So does any reordering of its parameters, with unknown ones anywhere and anything behind the sentinel. */
  lemma AnyOrderDecodes(p: Participant, params: seq<Parameter>, junk: seq<Byte>)
    requires Announceable(p) && AllPrintable(params)
    requires multiset(Known(KNOWN_IDS, params)) == multiset(Parameters(p))
    ensures Deserialized(ListBytes(params) + junk) == Some(p)
  {
    hide Parameters, ListBytes, WalkedPayload, Decoded, Finished, Known, ParseParameter, AllCommute, Ignored;
    hide AllPrintable;
    PayloadDecodes(ParseParameter, NOTHING_SEEN, params, junk);
    forall q: Parameter | q.id !in KNOWN_IDS
      ensures Ignored(ParseParameter, q)
    {
      UnknownIsIgnored(q);
    }
    UnknownAreIgnored(ParseParameter, Some(NOTHING_SEEN), KNOWN_IDS, params);
    ParametersCommute(p);
    OrderIsIrrelevant(ParseParameter, Some(NOTHING_SEEN), Parameters(p), Known(KNOWN_IDS, params));
    DecodeParameters(p);
  }

  // ----- the serializer and parser loops -----

  method SerializeSpdpPayload(p: Participant) returns (r: Option<seq<Byte>>)
    ensures r == Serialized(p)
  {
    hide DurationValue, LocatorValue, PutU32Le, ParameterBytes, WithParameter, Align4;
    if p.vendorId == [0, 0] || p.builtinEndpointSet == 0 || p.leaseDurationMs == 0 {
      return None;
    }
    var payload := CDR_LE_HEADER;
    payload := WriteParameter(payload, Parameter(PID_PROTOCOL_VERSION, [VERSION_MAJOR, VERSION_MINOR, 0, 0]));
    payload := WriteParameter(payload, Parameter(PID_VENDOR_ID, p.vendorId + [0, 0]));
    payload := WriteParameter(payload, Parameter(PID_PARTICIPANT_GUID, p.guidPrefix + PARTICIPANT_ENTITY));
    payload := WriteParameter(payload, Parameter(PID_METATRAFFIC_LOCATOR, LocatorValue(p.metatrafficLocator)));
    payload := WriteParameter(payload, Parameter(PID_DEFAULT_LOCATOR, LocatorValue(p.defaultLocator)));
    payload := WriteParameter(payload, Parameter(PID_ENDPOINT_SET, PutU32Le(p.builtinEndpointSet)));
    payload := WriteParameter(payload, Parameter(PID_LEASE_DURATION, DurationValue(p.leaseDurationMs)));
    payload := payload + SENTINEL_BYTES;
    SevenParameters(Parameters(p));
    return Some(payload);
  }

  lemma SevenParameters(ps: seq<Parameter>)
    requires |ps| == 7
    ensures ListBytes(ps) == CDR_LE_HEADER + ParameterBytes(ps[0]) + ParameterBytes(ps[1]) + ParameterBytes(ps[2])
      + ParameterBytes(ps[3]) + ParameterBytes(ps[4]) + ParameterBytes(ps[5]) + ParameterBytes(ps[6]) + SENTINEL_BYTES
  {
    hide ParameterBytes;
    assert AllParameters(ps[7..]) == [];
    assert AllParameters(ps[6..]) == ParameterBytes(ps[6]);
    assert AllParameters(ps[5..]) == ParameterBytes(ps[5]) + AllParameters(ps[6..]);
    assert AllParameters(ps[4..]) == ParameterBytes(ps[4]) + AllParameters(ps[5..]);
    assert AllParameters(ps[3..]) == ParameterBytes(ps[3]) + AllParameters(ps[4..]);
    assert AllParameters(ps[2..]) == ParameterBytes(ps[2]) + AllParameters(ps[3..]);
    assert AllParameters(ps[1..]) == ParameterBytes(ps[1]) + AllParameters(ps[2..]);
  }

  method DeserializeSpdpPayload(payload: seq<Byte>) returns (r: Option<Participant>)
    ensures r == Deserialized(payload)
  {
    var state := WalkPayload(ParseParameter, NOTHING_SEEN, payload);
    return Finished(state);
  }
}
