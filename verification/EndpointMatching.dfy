/** Which profiles and endpoints are compatible, and that endpoints which discover each other match each other. */
module EndpointMatching {
  import opened Bytes
  import opened RtpsMessage
  import opened ServiceTypes
  import opened DdsTypes
  import opened DiscoveryValues
  import opened ReliableRuns
  import opened ReliableRepair
  import S = SedpEndpoint
  import W = ReliableWriter
  import R = ReliableReader

  // ----- what a mapping and a match must satisfy -----

  /** A reliable mapping names a whole service and all of topic, type and event, and its limits can be kept. */
  lemma ProfileIsExact(m: TopicMapping)
    ensures ReliableProfile(m) <==>
      && m.qos.reliability == Reliable && m.qos.liveliness == Automatic && m.qos.ownership == Shared
      && m.qos.historyDepth >= 1 && (m.qos.maxCachedSamples > 0 ==> m.qos.historyDepth <= m.qos.maxCachedSamples)
      && m.araService.interfaceId > 0 && m.araService.instanceId > 0 && m.araService.majorVersion > 0
      && 1 <= |m.topicName| <= 65535 && 1 <= |m.typeName| <= 65535 && |m.eventName| >= 1
  {
  }

  /** The remote endpoint announces the mapping's own topic, type and policies, from another participant. */
  predicate Fits(m: TopicMapping, role: EndpointRole, remote: DiscoveredEndpoint) {
    && remote.role != role && remote.participantGuidPrefix != m.participantGuidPrefix
    && remote.topicName == m.topicName && remote.typeName == m.typeName
    && remote.reliabilityKind == (if m.qos.reliability == Reliable then 3 else 1)
    && remote.durabilityKind == (if m.qos.durability == TransientLocal then 1 else 0)
  }

  /** A match is built exactly for an endpoint that fits, and then names that endpoint and the mapping's own. */
  lemma MatchIsExact(m: TopicMapping, role: EndpointRole, remote: DiscoveredEndpoint)
    ensures var pair := BuildEndpointMatch(m, role, remote);
      && (pair.Some? <==> Fits(m, role, remote))
      && (pair.Some? ==>
            pair.value == EndpointMatch(role, if role == Publication then m.writerId else m.readerId, remote))
  {
  }

  /** Exactly the matches built for a valid mapping and a named endpoint are accepted by the operations. */
  lemma AcceptedMatchWasBuilt(m: TopicMapping, pair: EndpointMatch, role: EndpointRole)
    ensures ValidMatch(m, pair, role) <==>
      && ValidMapping(m) && pair.remoteEndpoint.endpointId != [0, 0, 0, 0]
      && BuildEndpointMatch(m, role, pair.remoteEndpoint) == Some(pair)
  {
    hide ValidMapping;
    MatchIsExact(m, role, pair.remoteEndpoint);
  }

  // ----- discovery -----

  /** What an endpoint of the mapping announces about itself. */
  function Announced(m: TopicMapping, role: EndpointRole, locator: Locator): S.Endpoint {
    S.Endpoint(
      m.participantGuidPrefix, EndpointIdForRole(m, role), m.topicName, m.typeName, locator,
      if m.qos.reliability.Reliable? then S.SEDP_RELIABILITY_RELIABLE else S.SEDP_RELIABILITY_BEST_EFFORT,
      if m.qos.durability.TransientLocal? then S.SEDP_DURABILITY_TRANSIENT_LOCAL else S.SEDP_DURABILITY_VOLATILE)
  }

  /** What is kept of an announcement. */
  function Discovered(role: EndpointRole, e: S.Endpoint): DiscoveredEndpoint {
    DiscoveredEndpoint(
      role, e.guidPrefix, e.endpointId, e.topicName, e.typeName, e.reliabilityKind, e.durabilityKind)
  }

  /** What becomes of the announcement of an endpoint on the wire. */
  function Heard(m: TopicMapping, role: EndpointRole, locator: Locator): Option<DiscoveredEndpoint> {
    var payload := S.Serialized(Announced(m, role, locator));
    if payload.None? then None
    else
      var e := S.Deserialized(payload.value);
      if e.None? then None else Some(Discovered(role, e.value))
  }

  /** The topics and policies of both agree, and they belong to different participants. */
  predicate Compatible(a: TopicMapping, b: TopicMapping) {
    && a.participantGuidPrefix != b.participantGuidPrefix && a.topicName == b.topicName && a.typeName == b.typeName
    && a.qos.reliability == b.qos.reliability && a.qos.durability == b.qos.durability
  }

  lemma HeardAsAnnounced(m: TopicMapping, role: EndpointRole, locator: Locator)
    requires S.Announceable(Announced(m, role, locator))
    ensures Heard(m, role, locator) == Some(Discovered(role, Announced(m, role, locator)))
  {
    hide S.Parameters, S.Deserialized;
    S.AnnouncementRoundTrip(Announced(m, role, locator));
  }

  /**
   A writer matches the announcement of a reader, as it arrives, exactly if the reader matches the writer's: if
   topics, types and policies agree and the participants differ.
   */
  lemma MatchingIsMutual(wm: TopicMapping, rm: TopicMapping, wl: Locator, rl: Locator)
    requires S.Announceable(Announced(wm, Publication, wl)) && S.Announceable(Announced(rm, Subscription, rl))
    ensures var reader, writer := Heard(rm, Subscription, rl), Heard(wm, Publication, wl);
      && reader.Some? && writer.Some?
      && (BuildEndpointMatch(wm, Publication, reader.value).Some? <==> Compatible(wm, rm))
      && (BuildEndpointMatch(rm, Subscription, writer.value).Some? <==> Compatible(wm, rm))
  {
    hide Heard, BuildEndpointMatch, S.Announceable;
    HeardAsAnnounced(wm, Publication, wl);
    HeardAsAnnounced(rm, Subscription, rl);
    MatchIsExact(wm, Publication, Heard(rm, Subscription, rl).value);
    MatchIsExact(rm, Subscription, Heard(wm, Publication, wl).value);
  }

  /**
   So a compatible reliable writer and reader of one service that announce themselves to each other end up with the
   pair of matches that a repair round and a replay rely on.
   */
  lemma DiscoveryPairs(s: System, wl: Locator, rl: Locator)
    requires var wm, rm := s.writer.mapping, s.reader.mapping;
      && ReliableProfile(wm) && ReliableProfile(rm) && Compatible(wm, rm)
      && wm.araService.interfaceId == rm.araService.interfaceId && wm.araService.instanceId == rm.araService.instanceId
      && S.Announceable(Announced(wm, Publication, wl)) && S.Announceable(Announced(rm, Subscription, rl))
    ensures var reader, writer := Heard(s.reader.mapping, Subscription, rl), Heard(s.writer.mapping, Publication, wl);
      && reader.Some? && writer.Some?
      && var wp := BuildEndpointMatch(s.writer.mapping, Publication, reader.value);
         var rp := BuildEndpointMatch(s.reader.mapping, Subscription, writer.value);
         wp.Some? && rp.Some? && Paired(s, wp.value, rp.value)
  {
    hide Heard, BuildEndpointMatch, ValidMapping;
    var wm, rm := s.writer.mapping, s.reader.mapping;
    MatchingIsMutual(wm, rm, wl, rl);
    HeardAsAnnounced(wm, Publication, wl);
    HeardAsAnnounced(rm, Subscription, rl);
    MatchIsExact(wm, Publication, Heard(rm, Subscription, rl).value);
    MatchIsExact(rm, Subscription, Heard(wm, Publication, wl).value);
  }
}
