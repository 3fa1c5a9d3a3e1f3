/** The reliable writer: a bounded, numbered history, heartbeats, repairs and historical replay. */
module ReliableWriter {
  import opened Bytes
  import opened Suffixes
  import opened RtpsMessage
  import opened ServiceTypes
  import opened DdsTypes
  import opened SampleEnvelope

  datatype HistoryEntry = HistoryEntry(sequenceNumber: U64, message: Message)

  datatype WriterState = WriterState(
    mapping: TopicMapping,
    historyDepth: nat,
    history: seq<HistoryEntry>,
    nextSequenceNumber: U64,
    samplesSent: U64,
    heartbeatCount: U64,
    repairsSent: U64,
    historicalReplaysSent: U64)

  function NewWriter(m: TopicMapping, historyDepth: nat): WriterState {
    WriterState(m, historyDepth, [], 1, 0, 0, 0, 0)
  }

  predicate ReadyFor(m: TopicMapping, pair: EndpointMatch) {
    ReliableProfile(m) && ValidMatch(m, pair, Publication)
  }

  // ----- building samples -----

  function DataMessage(m: TopicMapping, readerId: EntityId, payload: seq<Byte>, sequenceNumber: U64): Message {
    Message(
      OPEN_AUTOSAR_VENDOR, m.participantGuidPrefix,
      [DataSubmessage(readerId, m.writerId, sequenceNumber, payload)], [], [])
  }

  function DataMessageForReader(
    m: TopicMapping, readerId: EntityId, s: EventSample, sequenceNumber: U64): Option<Message>
  {
    if !ValidMapping(m) || readerId == NO_ENTITY || sequenceNumber == 0 || Encoded(m, s).None? then None
    else
      var message := DataMessage(m, readerId, Encoded(m, s).value, sequenceNumber);
      if FitsUdpPayload(message) then Some(message) else None
  }

  predicate DepthOk(w: WriterState) {
    && w.historyDepth != 0
    && w.mapping.qos.historyDepth <= w.historyDepth
    && (w.mapping.qos.maxCachedSamples == 0 || w.historyDepth <= w.mapping.qos.maxCachedSamples)
  }

  function SampleBuilt(w: WriterState, pair: EndpointMatch, s: EventSample): (WriterState, Option<Message>) {
    if !ReadyFor(w.mapping, pair) || !DepthOk(w) then (w, None)
    else
      var message := DataMessageForReader(w.mapping, pair.remoteEndpoint.endpointId, s, w.nextSequenceNumber);
      if message.None? then (w, None)
      else
        (w.(history := LastOf(w.historyDepth, w.history + [HistoryEntry(w.nextSequenceNumber, message.value)]),
            nextSequenceNumber := Increment(w.nextSequenceNumber),
            samplesSent := Increment(w.samplesSent)),
         message)
  }

  // ----- heartbeats, repairs and replay -----

  function HeartbeatMessage(w: WriterState, pair: EndpointMatch, finalFlag: bool): Message
    requires w.history != []
  {
    Message(
      OPEN_AUTOSAR_VENDOR, w.mapping.participantGuidPrefix, [],
      [HeartbeatSubmessage(
        pair.remoteEndpoint.endpointId, w.mapping.writerId,
        w.history[0].sequenceNumber, w.history[|w.history| - 1].sequenceNumber,
        Truncate32(Increment(w.heartbeatCount)), finalFlag, false)],
      [])
  }

  function HeartbeatBuilt(w: WriterState, pair: EndpointMatch, finalFlag: bool): (WriterState, Option<Message>) {
    if !ReadyFor(w.mapping, pair) || w.history == [] then (w, None)
    else (w.(heartbeatCount := Increment(w.heartbeatCount)), Some(HeartbeatMessage(w, pair, finalFlag)))
  }

  /** The first ACKNACK from the matched reader to this writer. */
  function MatchedAckNack(pair: EndpointMatch, acknacks: seq<AckNackSubmessage>): Option<AckNackSubmessage> {
    if acknacks == [] then None
    else if acknacks[0].readerId == pair.remoteEndpoint.endpointId && acknacks[0].writerId == pair.localEndpointId then
      Some(acknacks[0])
    else MatchedAckNack(pair, acknacks[1..])
  }

  /** The first history entry with the number. */
  function FindInHistory(history: seq<HistoryEntry>, number: U64): Option<Message> {
    if history == [] then None
    else if history[0].sequenceNumber == number then Some(history[0].message)
    else FindInHistory(history[1..], number)
  }

  /** The repairs for the numbers asked for; one number that has left the history spoils them all. */
  function Repairs(history: seq<HistoryEntry>, numbers: seq<U64>): (r: Option<seq<Message>>)
    ensures r.Some? ==> |r.value| == |numbers|
    ensures r.Some? <==> forall i :: 0 <= i < |numbers| ==> FindInHistory(history, numbers[i]).Some?
    ensures r.Some? ==>
      forall i :: 0 <= i < |numbers| ==> Some(r.value[i]) == FindInHistory(history, numbers[i])
  {
    if numbers == [] then Some([])
    else
      var before := Repairs(history, numbers[..|numbers| - 1]);
      var last := FindInHistory(history, numbers[|numbers| - 1]);
      assert forall i :: 0 <= i < |numbers| - 1 ==> numbers[i] == numbers[..|numbers| - 1][i];
      if before.None? || last.None? then None else Some(before.value + [last.value])
  }

  function RepairSamplesBuilt(w: WriterState, pair: EndpointMatch, acknackMessage: Message)
    : (WriterState, Option<seq<Message>>)
  {
    if !ReadyFor(w.mapping, pair) || acknackMessage.guidPrefix != pair.remoteEndpoint.participantGuidPrefix then
      (w, None)
    else
      var acknack := MatchedAckNack(pair, acknackMessage.acknacks);
      if acknack.None? then (w, None)
      else
        var repairs := Repairs(w.history, acknack.value.missingSequenceNumbers);
        if repairs.None? then (w, None)
        else (w.(repairsSent := (w.repairsSent + |repairs.value|) % U64_MODULUS), repairs)
  }

  /** The message with every DATA submessage addressed to the reader. */
  function Readdressed(m: Message, readerId: EntityId): Message {
    m.(data := seq(|m.data|, i requires 0 <= i < |m.data| => m.data[i].(readerId := readerId)))
  }

  function Replayed(history: seq<HistoryEntry>, readerId: EntityId): seq<Message> {
    seq(|history|, i requires 0 <= i < |history| => Readdressed(history[i].message, readerId))
  }

  function HistoricalSamplesBuilt(w: WriterState, pair: EndpointMatch): (WriterState, Option<seq<Message>>) {
    if !ReliableProfile(w.mapping) || !w.mapping.qos.durability.TransientLocal? || !ReadyFor(w.mapping, pair) then
      (w, None)
    else
      (w.(historicalReplaysSent := (w.historicalReplaysSent + |w.history|) % U64_MODULUS),
       Some(Replayed(w.history, pair.remoteEndpoint.endpointId)))
  }

  // ----- the writer itself -----

  class DdsReliableWriter {
    const mapping: TopicMapping
    const historyDepth: nat
    var history: seq<HistoryEntry>
    var nextSequenceNumber: U64
    var samplesSent: U64
    var heartbeatCount: U64
    var repairsSent: U64
    var historicalReplaysSent: U64

    constructor (m: TopicMapping, depth: nat)
      ensures State() == NewWriter(m, depth)
    {
      mapping, historyDepth := m, depth;
      history, nextSequenceNumber, samplesSent := [], 1, 0;
      heartbeatCount, repairsSent, historicalReplaysSent := 0, 0, 0;
    }

    ghost function State(): WriterState
      reads this
    {
      WriterState(
        mapping, historyDepth, history, nextSequenceNumber, samplesSent,
        heartbeatCount, repairsSent, historicalReplaysSent)
    }

    method BuildSample(pair: EndpointMatch, s: EventSample) returns (r: Option<Message>)
      modifies this
      ensures (State(), r) == SampleBuilt(old(State()), pair, s)
    {
      hide FitsUdpPayload, ReliableProfile, ValidMatch;
      if !ReliableProfile(mapping) || !ValidMatch(mapping, pair, Publication) {
        return None;
      }
      if historyDepth == 0 || historyDepth < mapping.qos.historyDepth {
        return None;
      }
      if mapping.qos.maxCachedSamples != 0 && historyDepth > mapping.qos.maxCachedSamples {
        return None;
      }
      var message := BuildDataMessageForReader(mapping, pair.remoteEndpoint.endpointId, s, nextSequenceNumber);
      if message.None? {
        return None;
      }
      history := history + [HistoryEntry(nextSequenceNumber, message.value)];
      ghost var pushed := history;
      while |history| > historyDepth
        invariant LastOf(historyDepth, history) == LastOf(historyDepth, pushed)
        invariant State() == old(State()).(history := history)
      {
        history := history[1..];
      }
      nextSequenceNumber := Increment(nextSequenceNumber);
      samplesSent := Increment(samplesSent);
      return message;
    }

    method BuildHeartbeat(pair: EndpointMatch, finalFlag: bool) returns (r: Option<Message>)
      modifies this
      ensures (State(), r) == HeartbeatBuilt(old(State()), pair, finalFlag)
    {
      if !ReliableProfile(mapping) || !ValidMatch(mapping, pair, Publication) || history == [] {
        return None;
      }
      heartbeatCount := Increment(heartbeatCount);
      return Some(Message(
        OPEN_AUTOSAR_VENDOR, mapping.participantGuidPrefix, [],
        [HeartbeatSubmessage(
          pair.remoteEndpoint.endpointId, mapping.writerId,
          history[0].sequenceNumber, history[|history| - 1].sequenceNumber,
          Truncate32(heartbeatCount), finalFlag, false)],
        []));
    }

    method BuildRepairSamples(pair: EndpointMatch, acknackMessage: Message) returns (r: Option<seq<Message>>)
      modifies this
      ensures (State(), r) == RepairSamplesBuilt(old(State()), pair, acknackMessage)
    {
      hide ReliableProfile, ValidMatch;
      if !ReliableProfile(mapping) || !ValidMatch(mapping, pair, Publication) {
        return None;
      }
      if acknackMessage.guidPrefix != pair.remoteEndpoint.participantGuidPrefix {
        return None;
      }
      var acknack := FindMatchedAckNack(pair, acknackMessage);
      if acknack.None? {
        return None;
      }
      var numbers := acknack.value.missingSequenceNumbers;
      var repairs := [];
      for i := 0 to |numbers|
        invariant Repairs(history, numbers[..i]) == Some(repairs)
      {
        assert numbers[..i + 1][..i] == numbers[..i];
        var entry := FindInHistory(history, numbers[i]);
        if entry.None? {
          return None;
        }
        repairs := repairs + [entry.value];
      }
      assert numbers[..|numbers|] == numbers;
      repairsSent := (repairsSent + |repairs|) % U64_MODULUS;
      return Some(repairs);
    }

    method BuildHistoricalSamples(pair: EndpointMatch) returns (r: Option<seq<Message>>)
      modifies this
      ensures (State(), r) == HistoricalSamplesBuilt(old(State()), pair)
    {
      hide ReliableProfile, ValidMatch;
      if !ReliableProfile(mapping) || !mapping.qos.durability.TransientLocal? {
        return None;
      }
      if !ValidMatch(mapping, pair, Publication) {
        return None;
      }
      var samples: seq<Message> := [];
      for i := 0 to |history|
        invariant |samples| == i
        invariant forall j :: 0 <= j < i ==>
          samples[j] == Readdressed(history[j].message, pair.remoteEndpoint.endpointId)
        invariant State() == old(State())
      {
        samples := samples + [Readdressed(history[i].message, pair.remoteEndpoint.endpointId)];
      }
      assert samples == Replayed(history, pair.remoteEndpoint.endpointId);
      historicalReplaysSent := (historicalReplaysSent + |samples|) % U64_MODULUS;
      return Some(samples);
    }
  }

  method BuildDataMessageForReader(m: TopicMapping, readerId: EntityId, s: EventSample, sequenceNumber: U64)
    returns (r: Option<Message>)
    ensures r == DataMessageForReader(m, readerId, s, sequenceNumber)
  {
    hide FitsUdpPayload;
    if !ValidMapping(m) || readerId == NO_ENTITY || sequenceNumber == 0 {
      return None;
    }
    var payload := EncodeSamplePayload(m, s);
    if payload.None? {
      return None;
    }
    var message := DataMessage(m, readerId, payload.value, sequenceNumber);
    if !FitsUdpPayload(message) {
      return None;
    }
    return Some(message);
  }

  method FindMatchedAckNack(pair: EndpointMatch, message: Message) returns (r: Option<AckNackSubmessage>)
    ensures r == MatchedAckNack(pair, message.acknacks)
  {
    for i := 0 to |message.acknacks|
      invariant MatchedAckNack(pair, message.acknacks) == MatchedAckNack(pair, message.acknacks[i..])
    {
      var acknack := message.acknacks[i];
      assert message.acknacks[i..][1..] == message.acknacks[i + 1..];
      if acknack.readerId == pair.remoteEndpoint.endpointId && acknack.writerId == pair.localEndpointId {
        return Some(acknack);
      }
    }
    return None;
  }
}
