/** What the reliable writer puts into its messages and its history: samples, heartbeats, repairs and replays. */
module ReliableMessages {
  import opened Bytes
  import opened Ascending
  import opened RtpsMessage
  import opened RtpsRoundTrip
  import opened ServiceTypes
  import opened DdsTypes
  import opened SampleEnvelope
  import opened ReliableRuns
  import opened ReliableRepair
  import W = ReliableWriter
  import R = ReliableReader

  predicate MayWrite(w: W.WriterState, pair: EndpointMatch) {
    ReliableProfile(w.mapping) && ValidMatch(w.mapping, pair, Publication)
  }

  // ----- samples -----

  /** What a sample takes up in a datagram of at most 1400 octets beside its topic, its type and its payload. */
  const OVERHEAD: nat := 66

  /** The writer keeps as much history as its profile asks for, and no more samples than it may cache. */
  predicate KeepsEnough(w: W.WriterState) {
    && w.historyDepth >= 1 && w.historyDepth >= w.mapping.qos.historyDepth
    && (w.mapping.qos.maxCachedSamples > 0 ==> w.historyDepth <= w.mapping.qos.maxCachedSamples)
  }

  predicate Sendable(w: W.WriterState, s: EventSample) {
    && s.service == w.mapping.araService && s.eventName == w.mapping.eventName && s.payload != []
    && |w.mapping.topicName| + |w.mapping.typeName| + |s.payload| + OVERHEAD <= 1400
  }

  /** The message carries the sample under the number from this writer to the matched reader. */
  ghost predicate CarriesTo(w: W.WriterState, pair: EndpointMatch, m: Message, number: U64, s: EventSample) {
    && m.guidPrefix == w.mapping.participantGuidPrefix && m.heartbeats == [] && m.acknacks == [] && |m.data| == 1
    && m.data[0].readerId == pair.remoteEndpoint.endpointId && m.data[0].writerId == w.mapping.writerId
    && m.data[0].writerSequenceNumber == number
    && Decoded(w.mapping, m.data[0].serializedPayload)
         == Some(EventSample(w.mapping.araService, w.mapping.eventName, s.payload, 0))
  }

  /** The entry has become the last of the history; what was before it is a suffix, shortened only if full. */
  ghost predicate Remembers(before: seq<W.HistoryEntry>, e: W.HistoryEntry, depth: nat, after: seq<W.HistoryEntry>) {
    && |after| == (if |before| < depth then |before| + 1 else depth)
    && after != [] && after[|after| - 1] == e
    && |after| - 1 <= |before| && after[..|after| - 1] == before[|before| - (|after| - 1)..]
  }

  lemma FitIsExact(m: TopicMapping, readerId: EntityId, s: EventSample, number: U64)
    requires Encodable(m, s)
    ensures FitsUdpPayload(W.DataMessage(m, readerId, Encoded(m, s).value, number)) <==>
      |m.topicName| + |m.typeName| + |s.payload| + OVERHEAD <= 1400
  {
    hide Submessages, TotalSize, EnvelopeHeader;
    DataSize(W.DataMessage(m, readerId, Encoded(m, s).value, number));
  }

  /**
   A sample is built exactly if the profile and the match allow it, numbers are left, the sample is the
   mapping's own and it fits a datagram. It is addressed to the matched reader, carries the payload under the
   next number, and becomes the last entry of the history; a refused sample changes nothing.
   */
  lemma BuiltSampleIsExact(w: W.WriterState, pair: EndpointMatch, s: EventSample)
    requires |w.history| <= w.historyDepth
    ensures var (w', m) := W.SampleBuilt(w, pair, s);
      && (m.Some? <==> MayWrite(w, pair) && KeepsEnough(w) && w.nextSequenceNumber != 0 && Sendable(w, s))
      && (m.Some? ==>
            && CarriesTo(w, pair, m.value, w.nextSequenceNumber, s)
            && Remembers(w.history, W.HistoryEntry(w.nextSequenceNumber, m.value), w.historyDepth, w'.history)
            && w' == w.(history := w'.history, nextSequenceNumber := Increment(w.nextSequenceNumber),
                        samplesSent := Increment(w.samplesSent)))
      && (m.None? ==> w' == w)
  {
    hide FitsUdpPayload, Encoded, Decoded, Increment, BuildEndpointMatch;
    if Encodable(w.mapping, s) {
      FitIsExact(w.mapping, pair.remoteEndpoint.endpointId, s, w.nextSequenceNumber);
    }
    EncodableIfEncoded(w.mapping, s);
    if W.SampleBuilt(w, pair, s).1.Some? {
      EnvelopeRoundTrip(w.mapping, w.mapping, s);
    }
  }

  lemma EncodableIfEncoded(m: TopicMapping, s: EventSample)
    ensures Encoded(m, s).Some? <==> Encodable(m, s)
  {
  }

  // ----- heartbeats -----

  /**
   A heartbeat is built exactly if there is history to tell of; it names its first and last number to the
   matched reader, counts up, and says whether an answer is wanted.
   */
  lemma HeartbeatIsExact(w: W.WriterState, pair: EndpointMatch, finalFlag: bool)
    ensures var (w', m) := W.HeartbeatBuilt(w, pair, finalFlag);
      && (m.Some? <==> MayWrite(w, pair) && w.history != [])
      && (m.Some? ==>
            && m.value.guidPrefix == w.mapping.participantGuidPrefix && m.value.data == [] && m.value.acknacks == []
            && |m.value.heartbeats| == 1
            && (var h := m.value.heartbeats[0];
               && h.readerId == pair.remoteEndpoint.endpointId && h.writerId == w.mapping.writerId
               && h.firstSequenceNumber == w.history[0].sequenceNumber
               && h.lastSequenceNumber == w.history[|w.history| - 1].sequenceNumber
               && h.count == w'.heartbeatCount % U32_MODULUS && h.finalFlag == finalFlag && !h.livelinessFlag)
            && w' == w.(heartbeatCount := Increment(w.heartbeatCount)))
      && (m.None? ==> w' == w)
  {
    hide ReliableProfile, ValidMatch, Increment;
  }

  // ----- answers to heartbeats -----

  /** The first heartbeat from the matched writer to this reader. */
  ghost predicate FirstAbout(pair: EndpointMatch, heartbeats: seq<HeartbeatSubmessage>, i: int) {
    && 0 <= i < |heartbeats| && About(pair, heartbeats[i])
    && forall j :: 0 <= j < i ==> !About(pair, heartbeats[j])
  }

  predicate About(pair: EndpointMatch, h: HeartbeatSubmessage) {
    h.writerId == pair.remoteEndpoint.endpointId && h.readerId == pair.localEndpointId
  }

  lemma {:induction false} HeartbeatIsFirst(pair: EndpointMatch, heartbeats: seq<HeartbeatSubmessage>, i: int)
    requires FirstAbout(pair, heartbeats, i)
    ensures R.MatchedHeartbeat(pair, heartbeats) == Some(heartbeats[i])
    decreases |heartbeats|
  {
    if i > 0 {
      assert About(pair, heartbeats[1..][i - 1]) && !About(pair, heartbeats[0]);
      assert forall j :: 0 <= j < i - 1 ==> heartbeats[1..][j] == heartbeats[j + 1];
      HeartbeatIsFirst(pair, heartbeats[1..], i - 1);
    }
  }

  lemma {:induction false} NoHeartbeat(pair: EndpointMatch, heartbeats: seq<HeartbeatSubmessage>)
    requires forall i :: 0 <= i < |heartbeats| ==> !About(pair, heartbeats[i])
    ensures R.MatchedHeartbeat(pair, heartbeats).None?
    decreases |heartbeats|
  {
    if heartbeats != [] {
      NoHeartbeat(pair, heartbeats[1..]);
    }
  }

  /** The answer asks the writer for the numbers of the range that were not received, and is final if there are none. */
  ghost predicate AsksFor(r: R.ReaderState, pair: EndpointMatch, h: HeartbeatSubmessage, m: Message, count: U64) {
    && m.guidPrefix == r.mapping.participantGuidPrefix && m.data == [] && m.heartbeats == [] && |m.acknacks| == 1
    && var a := m.acknacks[0];
       && a.readerId == r.mapping.readerId && a.writerId == pair.remoteEndpoint.endpointId
       && a.bitmapBase == h.firstSequenceNumber && IsAscending(a.missingSequenceNumbers)
       && (forall x: U64 :: x in a.missingSequenceNumbers <==>
             h.firstSequenceNumber <= x <= h.lastSequenceNumber && x !in r.received)
       && a.count == count % U32_MODULUS && a.finalFlag == (a.missingSequenceNumbers == [])
  }

  /**
   A heartbeat is answered exactly if it is the matched writer's first to this reader and names between 1 and
   256 numbers, none of them zero; the answer counts up, and nothing else of the reader changes.
   */
  lemma AnswerIsExact(r: R.ReaderState, pair: EndpointMatch, m: Message, i: int)
    requires !R.NeverAnswered(r.mapping, pair, m) && FirstAbout(pair, m.heartbeats, i)
    ensures var (r', answer) := R.AckNackBuilt(r, pair, m);
      var h := m.heartbeats[i];
      && (answer.Some? <==>
            && ReliableProfile(r.mapping) && ValidMatch(r.mapping, pair, Subscription)
            && m.guidPrefix == pair.remoteEndpoint.participantGuidPrefix
            && 1 <= h.firstSequenceNumber <= h.lastSequenceNumber
            && h.lastSequenceNumber - h.firstSequenceNumber < 256)
      && (answer.Some? ==>
            && AsksFor(r, pair, h, answer.value, r'.acknackCount)
            && r' == r.(acknackCount := Increment(r.acknackCount)))
      && (answer.None? ==> r' == r)
  {
    hide ReliableProfile, ValidMatch, Increment, R.NotReceived, IsAscending;
    HeartbeatIsFirst(pair, m.heartbeats, i);
    if R.AckNackBuilt(r, pair, m).1.Some? {
      var h := m.heartbeats[i];
      R.NotReceivedMembers(r.received, h.firstSequenceNumber, h.lastSequenceNumber + 1);
    }
  }

  /** Heartbeats of anyone else are not answered. */
  lemma OthersGetNoAnswer(r: R.ReaderState, pair: EndpointMatch, m: Message)
    requires forall i :: 0 <= i < |m.heartbeats| ==> !About(pair, m.heartbeats[i])
    ensures !R.NeverAnswered(r.mapping, pair, m) && R.AckNackBuilt(r, pair, m) == (r, None)
  {
    hide ReliableProfile, ValidMatch;
    NoHeartbeat(pair, m.heartbeats);
  }

  // ----- repairs -----

  /** The first ACKNACK from the matched reader to this writer. */
  ghost predicate FirstFrom(pair: EndpointMatch, acknacks: seq<AckNackSubmessage>, i: int) {
    && 0 <= i < |acknacks| && From(pair, acknacks[i])
    && forall j :: 0 <= j < i ==> !From(pair, acknacks[j])
  }

  predicate From(pair: EndpointMatch, a: AckNackSubmessage) {
    a.readerId == pair.remoteEndpoint.endpointId && a.writerId == pair.localEndpointId
  }

  lemma {:induction false} MatchedIsFirst(pair: EndpointMatch, acknacks: seq<AckNackSubmessage>, i: int)
    requires FirstFrom(pair, acknacks, i)
    ensures W.MatchedAckNack(pair, acknacks) == Some(acknacks[i])
    decreases |acknacks|
  {
    if i > 0 {
      assert From(pair, acknacks[1..][i - 1]) && !From(pair, acknacks[0]);
      assert forall j :: 0 <= j < i - 1 ==> acknacks[1..][j] == acknacks[j + 1];
      MatchedIsFirst(pair, acknacks[1..], i - 1);
    }
  }

  lemma {:induction false} NoneMatched(pair: EndpointMatch, acknacks: seq<AckNackSubmessage>)
    requires forall i :: 0 <= i < |acknacks| ==> !From(pair, acknacks[i])
    ensures W.MatchedAckNack(pair, acknacks).None?
    decreases |acknacks|
  {
    if acknacks != [] {
      NoneMatched(pair, acknacks[1..]);
    }
  }

  ghost predicate InHistory(history: seq<W.HistoryEntry>, number: U64, m: Message) {
    exists i :: 0 <= i < |history| && history[i] == W.HistoryEntry(number, m)
  }

  ghost predicate Numbered(history: seq<W.HistoryEntry>, number: U64) {
    exists i :: 0 <= i < |history| && history[i].sequenceNumber == number
  }

  /** A message is found exactly for the numbers in the history, and it is one stored under that number. */
  lemma {:induction false} FoundIfNumbered(history: seq<W.HistoryEntry>, number: U64)
    ensures var found := W.FindInHistory(history, number);
      && (found.Some? <==> Numbered(history, number))
      && (found.Some? ==> InHistory(history, number, found.value))
    decreases |history|
  {
    if history != [] {
      FoundIfNumbered(history[1..], number);
      assert forall i :: 0 < i < |history| ==> history[i] == history[1..][i - 1];
      assert forall i :: 0 <= i < |history| - 1 ==> history[1..][i] == history[i + 1];
    }
  }

  /**
   Repairs are built exactly if the ACKNACK comes from the matched reader and every number it names is still in
   the history: one message for each, in the order asked, as stored under that number.
   */
  lemma RepairsAreExact(w: W.WriterState, pair: EndpointMatch, acknackMessage: Message, i: int)
    requires FirstFrom(pair, acknackMessage.acknacks, i)
    ensures var (w', repairs) := W.RepairSamplesBuilt(w, pair, acknackMessage);
      var numbers := acknackMessage.acknacks[i].missingSequenceNumbers;
      && (repairs.Some? <==>
            && MayWrite(w, pair) && acknackMessage.guidPrefix == pair.remoteEndpoint.participantGuidPrefix
            && forall k :: 0 <= k < |numbers| ==> Numbered(w.history, numbers[k]))
      && (repairs.Some? ==>
            && |repairs.value| == |numbers|
            && (forall k :: 0 <= k < |numbers| ==> InHistory(w.history, numbers[k], repairs.value[k]))
            && w' == w.(repairsSent := (w.repairsSent + |numbers|) % U64_MODULUS))
      && (repairs.None? ==> w' == w)
  {
    hide ReliableProfile, ValidMatch, FirstFrom, Numbered, InHistory, W.FindInHistory;
    FirstIsIndex(pair, acknackMessage.acknacks, i);
    MatchedIsFirst(pair, acknackMessage.acknacks, i);
    var numbers := acknackMessage.acknacks[i].missingSequenceNumbers;
    forall k | 0 <= k < |numbers|
      ensures var found := W.FindInHistory(w.history, numbers[k]);
        && (found.Some? <==> Numbered(w.history, numbers[k]))
        && (found.Some? ==> InHistory(w.history, numbers[k], found.value))
    {
      FoundIfNumbered(w.history, numbers[k]);
    }
  }

  lemma FirstIsIndex(pair: EndpointMatch, acknacks: seq<AckNackSubmessage>, i: int)
    requires FirstFrom(pair, acknacks, i)
    ensures 0 <= i < |acknacks|
  {
  }

  /** An ACKNACK of anyone else is refused. */
  lemma OthersAreRefused(w: W.WriterState, pair: EndpointMatch, acknackMessage: Message)
    requires forall i :: 0 <= i < |acknackMessage.acknacks| ==> !From(pair, acknackMessage.acknacks[i])
    ensures W.RepairSamplesBuilt(w, pair, acknackMessage) == (w, None)
  {
    hide ReliableProfile, ValidMatch;
    NoneMatched(pair, acknackMessage.acknacks);
  }

  // ----- replays -----

  /** The same message for another reader. */
  ghost predicate SameForReader(stored: Message, readerId: EntityId, sent: Message) {
    && sent == stored.(data := sent.data) && |sent.data| == |stored.data|
    && forall i :: 0 <= i < |stored.data| ==>
         && sent.data[i].readerId == readerId
         && sent.data[i].writerId == stored.data[i].writerId
         && sent.data[i].writerSequenceNumber == stored.data[i].writerSequenceNumber
         && sent.data[i].serializedPayload == stored.data[i].serializedPayload
  }

  /**
   A late joiner is replayed the history exactly if the writer's samples outlive it: one message for each
   entry, in order, the same as stored but addressed to the matched reader.
   */
  lemma ReplayIsHistory(w: W.WriterState, pair: EndpointMatch)
    ensures var (w', samples) := W.HistoricalSamplesBuilt(w, pair);
      && (samples.Some? <==> MayWrite(w, pair) && w.mapping.qos.durability.TransientLocal?)
      && (samples.Some? ==>
            && |samples.value| == |w.history|
            && (forall i :: 0 <= i < |w.history| ==>
                  SameForReader(w.history[i].message, pair.remoteEndpoint.endpointId, samples.value[i]))
            && w' == w.(historicalReplaysSent := (w.historicalReplaysSent + |w.history|) % U64_MODULUS))
      && (samples.None? ==> w' == w)
  {
    hide ReliableProfile, ValidMatch;
  }

  // ----- whom the history is addressed to -----

  ghost predicate PublishesTo(a: Action, readerId: EntityId) {
    a.Publish? ==> a.pair.remoteEndpoint.endpointId == readerId
  }

  lemma StepKeepsAddress(s: System, a: Action, readerId: EntityId)
    requires IsAscending(s.reader.received) && AddressedTo(s.writer.history, readerId) && PublishesTo(a, readerId)
    ensures AddressedTo(Step(s, a).writer.history, readerId)
  {
    hide R.SampleAccepted, R.AckNackBuilt, R.WritersExpired, R.NeverAnswered, Parsed, Serialized, IsAscending, Sent;
    hide W.Repairs, W.MatchedAckNack, W.ReadyFor, W.DepthOk, Encoded, ReliableProfile, ValidMapping, FitsUdpPayload;
  }

  /** Over every run in which all samples are published to one reader, the whole history is addressed to that reader. */
  lemma {:induction false} HistoryIsAddressed(
    writerMapping: TopicMapping, depth: nat, readerMapping: TopicMapping, states: seq<System>, actions: seq<Action>,
    readerId: EntityId)
    requires IsRun(states, actions) && states[0] == Initial(writerMapping, depth, readerMapping)
    requires forall i :: 0 <= i < |actions| ==> PublishesTo(actions[i], readerId)
    ensures AddressedTo(states[|actions|].writer.history, readerId)
    decreases |actions|
  {
    hide Step, PublishesTo, IsAscending;
    if actions != [] {
      var n := |actions| - 1;
      HistoryIsAddressed(writerMapping, depth, readerMapping, states[..n + 1], actions[..n], readerId);
      StepKeepsAddress(states[n], actions[n], readerId);
    }
  }

  // ----- a late joiner catches up -----

  /** The datagram that replays `number` to the matched reader. */
  function ReplayDatagram(s: System, wp: EndpointMatch, number: U64): seq<Byte> {
    var samples, i := W.HistoricalSamplesBuilt(s.writer, wp).1, number - FirstInHistory(s);
    if samples.None? || !(0 <= i < |samples.value|) || Serialized(samples.value[i]).None? then []
    else Serialized(samples.value[i]).value
  }

  lemma ReaddressedCarries(
    m: TopicMapping, published: seq<EventSample>, message: Message, sent: Message, readerId: EntityId, number: nat)
    requires CarriesNumbered(m, published, message, number) && SameForReader(message, readerId, sent)
    ensures CarriesNumbered(m, published, sent, number) && sent.data[0].readerId == readerId
  {
    hide Encoded, Encodable, ValidMapping, FitsUdpPayload;
    SameSize(message, sent);
  }

  /** Every entry of the history is sent, under its own number and for the matched reader. */
  lemma ReplayIsSent(s: System, wp: EndpointMatch, number: U64)
    requires Safe(s) && MayWrite(s.writer, wp) && s.writer.mapping.qos.durability.TransientLocal?
    requires FirstInHistory(s) <= number <= |s.published|
    ensures var d, s' := ReplayDatagram(s, wp, number), Step(s, Replay(wp));
      && s'.reader == s.reader && s'.published == s.published && s'.writer.history == s.writer.history
      && s'.writer.mapping == s.writer.mapping
      && d in s'.network && Parsed(d).Some?
      && CarriesNumbered(s.writer.mapping, s.published, Parsed(d).value, number)
      && Parsed(d).value.data[0].readerId == wp.remoteEndpoint.endpointId
  {
    hide GenuineNetwork, AcceptedWerePublished, ReceivedAreAccepted, CarriesNumbered, IsAscending, SameForReader;
    hide Serialized, Parsed, ReliableProfile, ValidMatch, W.Replayed;
    var samples, i := W.HistoricalSamplesBuilt(s.writer, wp).1.value, number - FirstInHistory(s);
    ReplayIsHistory(s.writer, wp);
    assert s.writer.history[i].sequenceNumber == number;
    ReaddressedCarries(
      s.writer.mapping, s.published, s.writer.history[i].message, samples[i], wp.remoteEndpoint.endpointId, number);
    DataSurvives(s.writer.mapping, s.published, samples[i], number);
    assert samples[i] in samples;
  }

  /** Every datagram of the replay is delivered at least once. */
  ghost predicate ReplayArrives(s: System, wp: EndpointMatch, deliveries: seq<Delivery>) {
    forall x: U64 :: FirstInHistory(s) <= x <= |s.published| ==> Arrives(deliveries, ReplayDatagram(s, wp, x))
  }

  /**
   Whomever the history was addressed to before: a reader with room to which it is replayed has in the end
   accepted every sample of it, with the payload published under its number, whatever else is delivered in
   between, in whatever order and how often.
   */
  lemma LateJoinerCatchesUp(s: System, wp: EndpointMatch, rp: EndpointMatch, deliveries: seq<Delivery>)
    requires Safe(s) && Paired(s, wp, rp) && s.writer.mapping.qos.durability.TransientLocal?
    requires HasRoom(s.reader, rp, |s.published|) && |s.published| < U64_MODULUS
    requires ReplayArrives(s, wp, deliveries)
    ensures var s' := Delivered(Stepped(s, Replay(wp)), rp, deliveries);
      && Safe(s') && s'.published == s.published
      && forall x: U64 :: FirstInHistory(s) <= x <= |s.published| ==> x in s'.reader.received && AcceptedAs(s', x)
  {
    hide Safe, HasRoom, ReplayDatagram, Delivered, Step, Arrives, AcceptedAs, CarriesNumbered, IsAscending, Parsed;
    hide ReliableProfile, ValidMatch;
    var s1 := Stepped(s, Replay(wp));
    StillPaired(s, wp, rp);
    DeliveriesKeep(s1, wp, rp, deliveries);
    HistoryBounds(s);
    forall x: U64 | FirstInHistory(s) <= x <= |s.published|
      ensures x in Delivered(s1, rp, deliveries).reader.received && AcceptedAs(Delivered(s1, rp, deliveries), x)
    {
      ReplayIsSent(s, wp, x);
      ArrivedIsReceived(s1, wp, rp, deliveries, ReplayDatagram(s, wp, x), x);
      ReceivedIsAccepted(Delivered(s1, rp, deliveries), x);
    }
  }

  lemma StillPaired(s: System, wp: EndpointMatch, rp: EndpointMatch)
    requires Safe(s) && Paired(s, wp, rp)
    ensures var s' := Step(s, Replay(wp)); s'.reader == s.reader && s'.published == s.published && Paired(s', wp, rp)
  {
    hide Safe, ReliableProfile, ValidMatch, Serialized;
    HistoryBounds(s);
  }
}
