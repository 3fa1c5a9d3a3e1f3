/** The reliable reader: duplicate suppression, per-writer bookkeeping and ACKNACKs for what is missing. */
module ReliableReader {
  import opened Bytes
  import opened Ascending
  import opened AckNackBitmap
  import opened RtpsMessage
  import opened ServiceTypes
  import opened DdsTypes
  import opened SampleEnvelope

  datatype WriterRecord = WriterRecord(
    participantGuidPrefix: GuidPrefix, writerId: EntityId, lastSequenceNumber: U64, lastSeenMs: U64)

  datatype ReaderState = ReaderState(
    mapping: TopicMapping,
    received: seq<U64>,
    writers: seq<WriterRecord>,
    samplesReceived: U64,
    duplicateSamplesRejected: U64,
    acknackCount: U64,
    deadlineMisses: U64,
    livelinessLost: U64,
    resourceLimitRejections: U64)

  function NewReader(m: TopicMapping): ReaderState {
    ReaderState(m, [], [], 0, 0, 0, 0, 0, 0)
  }

  predicate ReadyFor(m: TopicMapping, pair: EndpointMatch) {
    ReliableProfile(m) && ValidMatch(m, pair, Subscription)
  }

  // ----- looking things up -----

  predicate Addressed(pair: EndpointMatch, writerId: EntityId, readerId: EntityId) {
    writerId == pair.remoteEndpoint.endpointId && readerId == pair.localEndpointId
  }

  /** The first DATA from the matched writer to this reader, unless its number is zero. */
  function MatchedData(pair: EndpointMatch, data: seq<DataSubmessage>): (r: Option<DataSubmessage>)
    ensures r.Some? ==>
      && r.value in data && Addressed(pair, r.value.writerId, r.value.readerId)
      && r.value.writerSequenceNumber != 0
  {
    if data == [] then None
    else if !Addressed(pair, data[0].writerId, data[0].readerId) then MatchedData(pair, data[1..])
    else if data[0].writerSequenceNumber == 0 then None
    else Some(data[0])
  }

  function MatchedHeartbeat(pair: EndpointMatch, heartbeats: seq<HeartbeatSubmessage>): Option<HeartbeatSubmessage> {
    if heartbeats == [] then None
    else if Addressed(pair, heartbeats[0].writerId, heartbeats[0].readerId) then Some(heartbeats[0])
    else MatchedHeartbeat(pair, heartbeats[1..])
  }

  predicate IsRecordOf(pair: EndpointMatch, w: WriterRecord) {
    && w.participantGuidPrefix == pair.remoteEndpoint.participantGuidPrefix
    && w.writerId == pair.remoteEndpoint.endpointId
  }

  /** The index of the writer's record, or the number of records if there is none. */
  function FindWriterState(writers: seq<WriterRecord>, pair: EndpointMatch): (i: nat)
    ensures i <= |writers|
    ensures i < |writers| ==> IsRecordOf(pair, writers[i])
  {
    if writers == [] || IsRecordOf(pair, writers[0]) then 0 else 1 + FindWriterState(writers[1..], pair)
  }

  function AgeMs(nowMs: U64, lastSeenMs: U64): U64 {
    if nowMs < lastSeenMs then 0 else nowMs - lastSeenMs
  }

  predicate ExceedsDuration(nowMs: U64, lastSeenMs: U64, durationMs: U64) {
    durationMs != 0 && AgeMs(nowMs, lastSeenMs) > durationMs
  }

  // ----- accepting samples -----

  function Seen(writers: seq<WriterRecord>, i: nat, pair: EndpointMatch, number: U64, nowMs: U64): seq<WriterRecord>
    requires i <= |writers|
  {
    if i == |writers| then
      writers + [WriterRecord(
        pair.remoteEndpoint.participantGuidPrefix, pair.remoteEndpoint.endpointId, number, nowMs)]
    else
      var last := writers[i].lastSequenceNumber;
      writers[i := writers[i].(lastSequenceNumber := if last < number then number else last, lastSeenMs := nowMs)]
  }

  function SampleAccepted(r: ReaderState, pair: EndpointMatch, message: Message, nowMs: U64)
    : (ReaderState, Option<EventSample>)
    requires IsAscending(r.received)
  {
    if !ReadyFor(r.mapping, pair) || message.guidPrefix != pair.remoteEndpoint.participantGuidPrefix then (r, None)
    else
      var data := MatchedData(pair, message.data);
      if data.None? then (r, None)
      else
        var qos, i := r.mapping.qos, FindWriterState(r.writers, pair);
        var number := data.value.writerSequenceNumber;
        if i == |r.writers| && qos.maxRemoteWriters != 0 && |r.writers| >= qos.maxRemoteWriters then
          (r.(resourceLimitRejections := Increment(r.resourceLimitRejections)), None)
        else if number in r.received then
          (r.(duplicateSamplesRejected := Increment(r.duplicateSamplesRejected)), None)
        else if qos.maxCachedSamples != 0 && |r.received| >= qos.maxCachedSamples then
          (r.(resourceLimitRejections := Increment(r.resourceLimitRejections)), None)
        else
          var late := i < |r.writers| && ExceedsDuration(nowMs, r.writers[i].lastSeenMs, qos.deadlineMs);
          var r' := if late then r.(deadlineMisses := Increment(r.deadlineMisses)) else r;
          var sample := Decoded(r.mapping, data.value.serializedPayload);
          if sample.None? then (r', None)
          else
            (r'.(received := Insert(number, r.received),
                 writers := Seen(r.writers, i, pair, number, nowMs),
                 samplesReceived := Increment(r.samplesReceived)),
             Some(sample.value.(sequence := number)))
  }

  // ----- asking for what is missing -----

  /** The numbers from `first` up to `end` (exclusive) that have not been received. */
  function NotReceived(received: seq<U64>, first: U64, end: U64): seq<U64>
    requires first <= end
    decreases end - first
  {
    if first == end then []
    else NotReceived(received, first, end - 1) + if end - 1 in received then [] else [end - 1]
  }

  lemma {:induction false} NotReceivedMembers(received: seq<U64>, first: U64, end: U64)
    requires first <= end
    ensures var missing := NotReceived(received, first, end);
      IsAscending(missing) && forall x :: x in missing <==> first <= x < end && x !in received
    decreases end - first
  {
    if first < end {
      hide IsAscending;
      NotReceivedMembers(received, first, end - 1);
      AppendAscends(NotReceived(received, first, end - 1), end - 1);
    }
  }

  const LAST_NUMBER: U64 := 0xFFFF_FFFF_FFFF_FFFF

  /** The first and last number a heartbeat asks about, if it passes every check before the loop over them. */
  function AskedRange(m: TopicMapping, pair: EndpointMatch, heartbeatMessage: Message): (r: Option<(U64, U64)>)
    ensures r.Some? ==> 0 < r.value.0 <= r.value.1
  {
    if !ReadyFor(m, pair) || heartbeatMessage.guidPrefix != pair.remoteEndpoint.participantGuidPrefix then None
    else
      var h := MatchedHeartbeat(pair, heartbeatMessage.heartbeats);
      if h.None? then None
      else
        var first, last := h.value.firstSequenceNumber, h.value.lastSequenceNumber;
        if first == 0 || last < first || last - first + 1 > MAX_BITMAP_BITS then None else Some((first, last))
  }

  /** The heartbeats that keep the reader busy for ever: those of at most 256 numbers that end at 2^64 - 1. */
  predicate NeverAnswered(m: TopicMapping, pair: EndpointMatch, heartbeatMessage: Message) {
    && ReadyFor(m, pair) && heartbeatMessage.guidPrefix == pair.remoteEndpoint.participantGuidPrefix
    && var h := MatchedHeartbeat(pair, heartbeatMessage.heartbeats);
       && h.Some? && h.value.lastSequenceNumber == LAST_NUMBER
       && LAST_NUMBER - h.value.firstSequenceNumber < MAX_BITMAP_BITS
  }

  function AckNackMessage(r: ReaderState, pair: EndpointMatch, first: U64, missing: seq<U64>): Message {
    Message(
      OPEN_AUTOSAR_VENDOR, r.mapping.participantGuidPrefix, [], [],
      [AckNackSubmessage(
        r.mapping.readerId, pair.remoteEndpoint.endpointId, first, missing,
        Truncate32(Increment(r.acknackCount)), missing == [])])
  }

  function AckNackBuilt(r: ReaderState, pair: EndpointMatch, heartbeatMessage: Message): (ReaderState, Option<Message>)
    requires !NeverAnswered(r.mapping, pair, heartbeatMessage)
  {
    match AskedRange(r.mapping, pair, heartbeatMessage)
    case None => (r, None)
    case Some((first, last)) =>
      (r.(acknackCount := Increment(r.acknackCount)),
       Some(AckNackMessage(r, pair, first, NotReceived(r.received, first, last + 1))))
  }

  // ----- liveliness -----

  function Unexpired(writers: seq<WriterRecord>, nowMs: U64, leaseMs: U64): (kept: seq<WriterRecord>)
    ensures |kept| <= |writers|
  {
    if writers == [] then []
    else
      (if ExceedsDuration(nowMs, writers[0].lastSeenMs, leaseMs) then [] else [writers[0]])
      + Unexpired(writers[1..], nowMs, leaseMs)
  }

  function WritersExpired(r: ReaderState, nowMs: U64): (ReaderState, Option<nat>) {
    if !ReliableProfile(r.mapping) then (r, None)
    else
      var kept := Unexpired(r.writers, nowMs, r.mapping.qos.livelinessLeaseDurationMs);
      var removed := |r.writers| - |kept|;
      (r.(writers := kept, livelinessLost := (r.livelinessLost + removed) % U64_MODULUS), Some(removed))
  }

  // ----- the reader itself -----

  class DdsReliableReader {
    const mapping: TopicMapping
    var received: seq<U64>
    var writers: seq<WriterRecord>
    var samplesReceived: U64
    var duplicateSamplesRejected: U64
    var acknackCount: U64
    var deadlineMisses: U64
    var livelinessLost: U64
    var resourceLimitRejections: U64

    constructor (m: TopicMapping)
      ensures State() == NewReader(m) && Valid()
    {
      mapping, received, writers := m, [], [];
      samplesReceived, duplicateSamplesRejected, acknackCount := 0, 0, 0;
      deadlineMisses, livelinessLost, resourceLimitRejections := 0, 0, 0;
    }

    ghost predicate Valid()
      reads this
    {
      IsAscending(received)
    }

    ghost function State(): ReaderState
      reads this
    {
      ReaderState(
        mapping, received, writers, samplesReceived, duplicateSamplesRejected, acknackCount,
        deadlineMisses, livelinessLost, resourceLimitRejections)
    }

    method AcceptSample(pair: EndpointMatch, message: Message, nowMs: U64) returns (r: Option<EventSample>)
      requires Valid()
      modifies this
      ensures (State(), r) == SampleAccepted(old(State()), pair, message, nowMs) && Valid()
    {
      hide ReliableProfile, ValidMatch, Decoded, IsAscending, SameElements;
      if !ReliableProfile(mapping) || !ValidMatch(mapping, pair, Subscription) {
        return None;
      }
      if message.guidPrefix != pair.remoteEndpoint.participantGuidPrefix {
        return None;
      }
      var data := FindMatchedDataSubmessage(pair, message);
      if data.None? {
        return None;
      }
      var number := data.value.writerSequenceNumber;
      var writer := FindWriterState(writers, pair);
      var writerKnown := writer != |writers|;
      if !writerKnown && mapping.qos.maxRemoteWriters != 0 && |writers| >= mapping.qos.maxRemoteWriters {
        resourceLimitRejections := Increment(resourceLimitRejections);
        return None;
      }
      if number in received {
        duplicateSamplesRejected := Increment(duplicateSamplesRejected);
        return None;
      }
      if mapping.qos.maxCachedSamples != 0 && |received| >= mapping.qos.maxCachedSamples {
        resourceLimitRejections := Increment(resourceLimitRejections);
        return None;
      }
      if writerKnown && ExceedsDuration(nowMs, writers[writer].lastSeenMs, mapping.qos.deadlineMs) {
        deadlineMisses := Increment(deadlineMisses);
      }
      var decoded := Decoded(mapping, data.value.serializedPayload);
      if decoded.None? {
        return None;
      }
      received := Insert(number, received);
      if !writerKnown {
        writers := writers + [WriterRecord(
          pair.remoteEndpoint.participantGuidPrefix, pair.remoteEndpoint.endpointId, number, nowMs)];
      } else {
        var last := writers[writer].lastSequenceNumber;
        writers := writers[writer := writers[writer].(
          lastSequenceNumber := if last < number then number else last, lastSeenMs := nowMs)];
      }
      samplesReceived := Increment(samplesReceived);
      return Some(decoded.value.(sequence := number));
    }

    method BuildAckNack(pair: EndpointMatch, heartbeatMessage: Message) returns (r: Option<Message>)
      requires Valid() && !NeverAnswered(mapping, pair, heartbeatMessage)
      modifies this
      ensures (State(), r) == AckNackBuilt(old(State()), pair, heartbeatMessage) && Valid()
    {
      hide ReliableProfile, ValidMatch, IsAscending;
      if !ReliableProfile(mapping) || !ValidMatch(mapping, pair, Subscription) {
        return None;
      }
      if heartbeatMessage.guidPrefix != pair.remoteEndpoint.participantGuidPrefix {
        return None;
      }
      var heartbeat := FindMatchedHeartbeat(pair, heartbeatMessage);
      if heartbeat.None? {
        return None;
      }
      var first, last := heartbeat.value.firstSequenceNumber, heartbeat.value.lastSequenceNumber;
      if first == 0 || last < first {
        return None;
      }
      var heartbeatRange := last - first + 1;
      if heartbeatRange > MAX_BITMAP_BITS {
        return None;
      }
      var missing := CollectMissing(received, first, last);
      acknackCount := Increment(acknackCount);
      var noMissingSamples := missing == [];
      return Some(Message(
        OPEN_AUTOSAR_VENDOR, mapping.participantGuidPrefix, [], [],
        [AckNackSubmessage(
          mapping.readerId, pair.remoteEndpoint.endpointId, first, missing,
          Truncate32(acknackCount), noMissingSamples)]));
    }

    method RemoveExpiredWriters(nowMs: U64) returns (r: Option<nat>)
      modifies this
      ensures (State(), r) == WritersExpired(old(State()), nowMs)
    {
      hide ReliableProfile;
      if !ReliableProfile(mapping) {
        return None;
      }
      var kept := RemoveExpiredWriterStates(writers, nowMs, mapping.qos.livelinessLeaseDurationMs);
      var removed := |writers| - |kept|;
      writers := kept;
      livelinessLost := (livelinessLost + removed) % U64_MODULUS;
      return Some(removed);
    }
  }

  lemma NextWriter(writers: seq<WriterRecord>, i: nat, nowMs: U64, leaseMs: U64)
    requires i < |writers|
    ensures Unexpired(writers[i..], nowMs, leaseMs)
      == (if ExceedsDuration(nowMs, writers[i].lastSeenMs, leaseMs) then [] else [writers[i]])
         + Unexpired(writers[i + 1..], nowMs, leaseMs)
    ensures Unexpired(writers[|writers|..], nowMs, leaseMs) == []
  {
    assert writers[i..][1..] == writers[i + 1..];
  }

  method RemoveExpiredWriterStates(writers: seq<WriterRecord>, nowMs: U64, leaseMs: U64)
    returns (kept: seq<WriterRecord>)
    ensures kept == Unexpired(writers, nowMs, leaseMs)
  {
    hide ExceedsDuration, Unexpired;
    kept := [];
    for i := 0 to |writers|
      invariant kept + Unexpired(writers[i..], nowMs, leaseMs) == Unexpired(writers, nowMs, leaseMs)
    {
      NextWriter(writers, i, nowMs, leaseMs);
      if !ExceedsDuration(nowMs, writers[i].lastSeenMs, leaseMs) {
        kept := kept + [writers[i]];
      }
    }
  }

  method CollectMissing(received: seq<U64>, first: U64, last: U64) returns (missing: seq<U64>)
    requires first <= last < LAST_NUMBER
    ensures missing == NotReceived(received, first, last + 1)
  {
    missing := [];
    var sequence := first;
    while sequence <= last
      invariant first <= sequence <= last + 1
      invariant missing == NotReceived(received, first, sequence)
    {
      if sequence !in received {
        missing := missing + [sequence];
      }
      sequence := Increment(sequence);
    }
  }

  method FindMatchedDataSubmessage(pair: EndpointMatch, message: Message) returns (r: Option<DataSubmessage>)
    ensures r == MatchedData(pair, message.data)
  {
    for i := 0 to |message.data|
      invariant MatchedData(pair, message.data) == MatchedData(pair, message.data[i..])
    {
      var data := message.data[i];
      assert message.data[i..][1..] == message.data[i + 1..];
      if data.writerId == pair.remoteEndpoint.endpointId && data.readerId == pair.localEndpointId {
        return if data.writerSequenceNumber == 0 then None else Some(data);
      }
    }
    return None;
  }

  method FindMatchedHeartbeat(pair: EndpointMatch, message: Message) returns (r: Option<HeartbeatSubmessage>)
    ensures r == MatchedHeartbeat(pair, message.heartbeats)
  {
    for i := 0 to |message.heartbeats|
      invariant MatchedHeartbeat(pair, message.heartbeats) == MatchedHeartbeat(pair, message.heartbeats[i..])
    {
      var heartbeat := message.heartbeats[i];
      assert message.heartbeats[i..][1..] == message.heartbeats[i + 1..];
      if heartbeat.writerId == pair.remoteEndpoint.endpointId && heartbeat.readerId == pair.localEndpointId {
        return Some(heartbeat);
      }
    }
    return None;
  }

  // ----- when the loop over the range ends -----

  /** The loop variable and what has been collected. */
  datatype RangeLoop = RangeLoop(sequence: U64, missing: seq<U64>)

  /** The loop after `n` turns, the variable in 64-bit arithmetic. */
  function AfterTurns(received: seq<U64>, first: U64, n: nat): RangeLoop {
    if n == 0 then RangeLoop(first, [])
    else
      var l := AfterTurns(received, first, n - 1);
      RangeLoop(Increment(l.sequence), l.missing + if l.sequence in received then [] else [l.sequence])
  }

  /** After some number of turns the variable has passed the last number, so that the loop ends. */
  ghost predicate LoopEnds(received: seq<U64>, first: U64, last: U64) {
    exists n: nat :: AfterTurns(received, first, n).sequence > last
  }

  lemma {:induction false} TurnsCollect(received: seq<U64>, first: U64, n: nat)
    requires first + n <= LAST_NUMBER
    ensures AfterTurns(received, first, n) == RangeLoop(first + n, NotReceived(received, first, first + n))
  {
    if n > 0 {
      TurnsCollect(received, first, n - 1);
    }
  }

  /** A call returns if a check before the loop fails, or the loop ends. */
  ghost predicate CallReturns(r: ReaderState, pair: EndpointMatch, heartbeatMessage: Message) {
    var range := AskedRange(r.mapping, pair, heartbeatMessage);
    range.None? || LoopEnds(r.received, range.value.0, range.value.1)
  }

  /**
   The reader returns from a heartbeat exactly unless it passes every check and its range ends at 2^64 - 1.
   It then answers with what the loop has collected when its variable first passes the last number.
   */
  lemma ReturnsUnlessAtLastNumber(r: ReaderState, pair: EndpointMatch, heartbeatMessage: Message)
    ensures CallReturns(r, pair, heartbeatMessage) <==> !NeverAnswered(r.mapping, pair, heartbeatMessage)
    ensures var range := AskedRange(r.mapping, pair, heartbeatMessage);
      !NeverAnswered(r.mapping, pair, heartbeatMessage) && range.Some? ==>
        var (first, last) := range.value;
        var turns := last - first + 1;
        && (forall n: nat :: n < turns ==> AfterTurns(r.received, first, n).sequence <= last)
        && AfterTurns(r.received, first, turns).sequence > last
        && AckNackBuilt(r, pair, heartbeatMessage).1
             == Some(AckNackMessage(r, pair, first, AfterTurns(r.received, first, turns).missing))
  {
    hide ReadyFor, AfterTurns, NotReceived;
    var range := AskedRange(r.mapping, pair, heartbeatMessage);
    if range.Some? && range.value.1 < LAST_NUMBER {
      var (first, last) := range.value;
      forall n: nat | n <= last - first + 1
        ensures AfterTurns(r.received, first, n).sequence == first + n
      {
        TurnsCollect(r.received, first, n);
      }
      TurnsCollect(r.received, first, last - first + 1);
    }
  }
}
