/** DDS topic mappings, QoS profiles and discovered endpoints, and when a local and a remote endpoint match. */
module DdsTypes {
  import opened Bytes
  import opened RtpsMessage
  import opened ServiceTypes
  import SedpEndpoint

  const MAX_NAME_LENGTH: nat := 0xFFFF
  const OPEN_AUTOSAR_VENDOR: VendorId := [0x4F, 0x41]

  datatype Reliability = BestEffort | Reliable
  datatype Durability = Volatile | TransientLocal
  datatype Liveliness = Automatic | ManualByParticipant
  datatype Ownership = Shared | Exclusive

  datatype QosProfile = QosProfile(
    reliability: Reliability,
    durability: Durability,
    liveliness: Liveliness,
    ownership: Ownership,
    historyDepth: nat,
    deadlineMs: U64,
    livelinessLeaseDurationMs: U64,
    maxCachedSamples: nat,
    maxRemoteWriters: nat)

  datatype TopicMapping = TopicMapping(
    araService: ServiceIdentifier,
    topicName: Name,
    typeName: Name,
    eventName: Name,
    qos: QosProfile,
    participantGuidPrefix: GuidPrefix,
    writerId: EntityId,
    readerId: EntityId)

  datatype EndpointRole = Publication | Subscription

  datatype DiscoveredEndpoint = DiscoveredEndpoint(
    role: EndpointRole,
    participantGuidPrefix: GuidPrefix,
    endpointId: EntityId,
    topicName: Name,
    typeName: Name,
    reliabilityKind: U32,
    durabilityKind: U32)

  datatype EndpointMatch = EndpointMatch(
    localRole: EndpointRole, localEndpointId: EntityId, remoteEndpoint: DiscoveredEndpoint)

  // ----- validation -----

  predicate ValidQos(q: QosProfile) {
    && q.liveliness.Automatic?
    && q.ownership.Shared?
    && q.historyDepth != 0
    && (q.maxCachedSamples == 0 || q.historyDepth <= q.maxCachedSamples)
  }

  predicate ValidMapping(m: TopicMapping) {
    && m.araService.interfaceId != 0 && m.araService.instanceId != 0 && m.araService.majorVersion != 0
    && m.topicName != [] && m.typeName != [] && m.eventName != []
    && |m.topicName| <= MAX_NAME_LENGTH && |m.typeName| <= MAX_NAME_LENGTH
    && ValidQos(m.qos)
  }

  predicate ReliableProfile(m: TopicMapping) {
    ValidMapping(m) && m.qos.reliability.Reliable?
  }

  // ----- matching -----

  function OppositeRole(role: EndpointRole): EndpointRole {
    if role.Publication? then Subscription else Publication
  }

  function EndpointIdForRole(m: TopicMapping, role: EndpointRole): EntityId {
    if role.Publication? then m.writerId else m.readerId
  }

  function FromSedpReliability(kind: U32): Option<Reliability> {
    if kind == SedpEndpoint.SEDP_RELIABILITY_BEST_EFFORT then Some(BestEffort)
    else if kind == SedpEndpoint.SEDP_RELIABILITY_RELIABLE then Some(Reliable)
    else None
  }

  function FromSedpDurability(kind: U32): Option<Durability> {
    if kind == SedpEndpoint.SEDP_DURABILITY_VOLATILE then Some(Volatile)
    else if kind == SedpEndpoint.SEDP_DURABILITY_TRANSIENT_LOCAL then Some(TransientLocal)
    else None
  }

  /** The match of a local endpoint with a discovered one, if they are compatible. */
  function BuildEndpointMatch(m: TopicMapping, role: EndpointRole, remote: DiscoveredEndpoint): Option<EndpointMatch> {
    if && remote.role == OppositeRole(role)
       && remote.participantGuidPrefix != m.participantGuidPrefix
       && remote.topicName == m.topicName && remote.typeName == m.typeName
       && FromSedpReliability(remote.reliabilityKind) == Some(m.qos.reliability)
       && FromSedpDurability(remote.durabilityKind) == Some(m.qos.durability)
    then Some(EndpointMatch(role, EndpointIdForRole(m, role), remote))
    else None
  }

  predicate ValidMatch(m: TopicMapping, pair: EndpointMatch, role: EndpointRole) {
    && ValidMapping(m)
    && pair.localRole == role
    && pair.localEndpointId == EndpointIdForRole(m, role)
    && pair.remoteEndpoint.endpointId != NO_ENTITY
    && BuildEndpointMatch(m, role, pair.remoteEndpoint).Some?
  }

  // ----- counters -----

  function Truncate32(x: U64): U32 {
    x % U32_MODULUS
  }
}
