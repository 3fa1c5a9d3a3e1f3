/** One loss-free round of heartbeat, ACKNACK and repair delivers everything still in the history. */
module ReliableRepair {
  import opened Bytes
  import opened Ascending
  import opened AckNackBitmap
  import opened RtpsMessage
  import opened RtpsRoundTrip
  import opened ServiceTypes
  import opened DdsTypes
  import opened SampleEnvelope
  import opened ReliableRuns
  import SedpEndpoint
  import W = ReliableWriter
  import R = ReliableReader

  /** What arrives when the message is printed, sent and parsed. */
  function OverTheWire(m: Message): Option<Message> {
    if Serialized(m).None? then None else Parsed(Serialized(m).value)
  }

  // ----- each kind of message survives the wire -----

  lemma SurvivesIfPrinted(m: Message)
    requires Serialized(m).Some? && Normalized(m) == m
    ensures OverTheWire(m) == Some(m)
  {
    hide Serialized, Parsed, Normalized;
    SerializedParses(m);
  }

  lemma OnlySubmessage(m: Message, s: Submessage)
    requires Submessages(m) == [s] && SubmessageOk(s)
    ensures TotalSize(Submessages(m)) == SizeOf(s) && AllOk(Submessages(m))
  {
    hide SubmessageOk, SizeOf;
    assert [s][..0] == [];
  }

  lemma HeartbeatSurvives(m: Message)
    requires m.vendorId == OPEN_AUTOSAR_VENDOR && m.data == [] && m.acknacks == [] && |m.heartbeats| == 1
    requires SubmessageOk(Heartbeat(m.heartbeats[0]))
    ensures OverTheWire(m) == Some(m)
  {
    hide Parsed, AllBytes, TotalSize, OverTheWire, HeaderBytes, AllOk;
    assert Submessages(m) == [Heartbeat(m.heartbeats[0])];
    OnlySubmessage(m, Heartbeat(m.heartbeats[0]));
    assert Normalized(m) == m;
    SurvivesIfPrinted(m);
  }

  lemma AckNackSurvives(m: Message)
    requires m.vendorId == OPEN_AUTOSAR_VENDOR && m.data == [] && m.heartbeats == [] && |m.acknacks| == 1
    requires var a := m.acknacks[0];
      && a.bitmapBase != 0 && a.count != 0 && IsAscending(a.missingSequenceNumbers)
      && WithinBits(a.bitmapBase, MAX_BITMAP_BITS, a.missingSequenceNumbers)
    ensures OverTheWire(m) == Some(m)
  {
    hide Parsed, AllBytes, TotalSize, OverTheWire, HeaderBytes, AllOk, IsAscending, SortUnique, WordsOf;
    var a := m.acknacks[0];
    SortUniqueOfAscending(a.missingSequenceNumbers);
    if a.missingSequenceNumbers != [] {
      LastIsLargest(a.missingSequenceNumbers);
    }
    assert Submessages(m) == [AckNack(a)];
    assert SubmessageOk(AckNack(a));
    OnlySubmessage(m, AckNack(a));
    assert Normalized(m) == m;
    SurvivesIfPrinted(m);
  }

  lemma DataSurvives(m: TopicMapping, published: seq<EventSample>, message: Message, number: nat)
    requires CarriesNumbered(m, published, message, number)
    ensures OverTheWire(message) == Some(message) && Serialized(message).Some?
  {
    hide Parsed, AllBytes, TotalSize, Submessages, OverTheWire, HeaderBytes, AllOk, ValidMapping;
    DataSize(message);
    OnlySubmessage(message, Data(message.data[0]));
    assert Normalized(message) == message;
    SurvivesIfPrinted(message);
  }

  // ----- the setting -----

  /** `wp` is the writer's match for the reader and `rp` the reader's match for the writer. */
  ghost predicate Paired(s: System, wp: EndpointMatch, rp: EndpointMatch) {
    var wm, rm := s.writer.mapping, s.reader.mapping;
    && W.ReadyFor(wm, wp) && R.ReadyFor(rm, rp)
    && wp.remoteEndpoint.participantGuidPrefix == rm.participantGuidPrefix
    && wp.remoteEndpoint.endpointId == rm.readerId
    && rp.remoteEndpoint.participantGuidPrefix == wm.participantGuidPrefix
    && rp.remoteEndpoint.endpointId == wm.writerId
    && rm.araService.interfaceId == wm.araService.interfaceId
    && rm.araService.instanceId == wm.araService.instanceId
    && rm.topicName == wm.topicName && rm.typeName == wm.typeName
  }

  /** The reader's limits leave room for this writer and for all it published. */
  ghost predicate HasRoom(r: R.ReaderState, rp: EndpointMatch, total: nat) {
    && (R.FindWriterState(r.writers, rp) < |r.writers|
        || r.mapping.qos.maxRemoteWriters == 0 || |r.writers| < r.mapping.qos.maxRemoteWriters)
    && (r.mapping.qos.maxCachedSamples == 0 || total <= r.mapping.qos.maxCachedSamples)
  }

  ghost predicate AddressedTo(history: seq<W.HistoryEntry>, readerId: EntityId) {
    forall i :: 0 <= i < |history| ==>
      |history[i].message.data| == 1 && history[i].message.data[0].readerId == readerId
  }

  /**
   A safe state in which a round can run: the history is not empty, fits one bitmap and was built for this
   reader, the reader has room, and neither 32-bit count is about to wrap to zero.
   */
  ghost predicate RoundPossible(s: System, wp: EndpointMatch, rp: EndpointMatch) {
    && Safe(s) && Paired(s, wp, rp)
    && 0 < |s.writer.history| <= MAX_BITMAP_BITS
    && AddressedTo(s.writer.history, s.reader.mapping.readerId)
    && HasRoom(s.reader, rp, |s.published|)
    && |s.published| < R.LAST_NUMBER
    && Truncate32(Increment(s.writer.heartbeatCount)) != 0
    && Truncate32(Increment(s.reader.acknackCount)) != 0
  }

  function FirstInHistory(s: System): int {
    |s.published| - |s.writer.history| + 1
  }

  // ----- the heartbeat -----

  lemma HeartbeatNamesHistory(s: System, wp: EndpointMatch, rp: EndpointMatch, finalFlag: bool)
    requires RoundPossible(s, wp, rp)
    ensures var (w, m) := W.HeartbeatBuilt(s.writer, wp, finalFlag);
      && m.Some? && OverTheWire(m.value) == m
      && w == s.writer.(heartbeatCount := w.heartbeatCount)
      && m.value.guidPrefix == rp.remoteEndpoint.participantGuidPrefix
      && R.MatchedHeartbeat(rp, m.value.heartbeats) == Some(m.value.heartbeats[0])
      && m.value.heartbeats[0].firstSequenceNumber == FirstInHistory(s)
      && m.value.heartbeats[0].lastSequenceNumber == |s.published|
  {
    hide GenuineNetwork, AcceptedWerePublished, ReceivedAreAccepted, OverTheWire, CarriesNumbered, IsAscending;
    var m := W.HeartbeatMessage(s.writer, wp, finalFlag);
    assert s.writer.history[0].sequenceNumber == FirstInHistory(s);
    assert s.writer.history[|s.writer.history| - 1].sequenceNumber == |s.published|;
    HeartbeatSurvives(m);
  }

  // ----- the ACKNACK -----

  /** The ACKNACK names exactly the numbers of the heartbeat range not yet received, and crosses the wire intact. */
  lemma AckNackNamesMissing(s: System, wp: EndpointMatch, rp: EndpointMatch, heartbeat: Message)
    requires RoundPossible(s, wp, rp)
    requires heartbeat.guidPrefix == rp.remoteEndpoint.participantGuidPrefix
    requires var h := R.MatchedHeartbeat(rp, heartbeat.heartbeats);
      && h.Some? && h.value.firstSequenceNumber == FirstInHistory(s) && h.value.lastSequenceNumber == |s.published|
    ensures var (r, m) := R.AckNackBuilt(s.reader, rp, heartbeat);
      && m.Some? && OverTheWire(m.value) == m
      && r == s.reader.(acknackCount := r.acknackCount)
      && m.value.guidPrefix == wp.remoteEndpoint.participantGuidPrefix
      && W.MatchedAckNack(wp, m.value.acknacks) == Some(m.value.acknacks[0])
      && (forall x: U64 :: x in m.value.acknacks[0].missingSequenceNumbers <==>
            FirstInHistory(s) <= x <= |s.published| && x !in s.reader.received)
      && m.value.acknacks[0].finalFlag == (m.value.acknacks[0].missingSequenceNumbers == [])
  {
    hide Safe, OverTheWire, IsAscending, R.NotReceived, AddressedTo, HasRoom;
    HistoryBounds(s);
    var first := FirstInHistory(s);
    NotReceivedInRange(s.reader.received, first, |s.published|);
    AckNackSurvives(R.AckNackMessage(s.reader, rp, first, R.NotReceived(s.reader.received, first, |s.published| + 1)));
  }

  lemma HistoryBounds(s: System)
    requires Safe(s)
    ensures |s.writer.history| <= |s.published| && IsAscending(s.reader.received)
  {
    hide GenuineNetwork, AcceptedWerePublished, ReceivedAreAccepted, CarriesNumbered, IsAscending;
  }

  lemma NotReceivedInRange(received: seq<U64>, first: nat, last: nat)
    requires 1 <= first <= last < R.LAST_NUMBER && last - first < MAX_BITMAP_BITS
    ensures var missing := R.NotReceived(received, first, last + 1);
      && IsAscending(missing) && WithinBits(first, MAX_BITMAP_BITS, missing)
      && forall x: U64 :: x in missing <==> first <= x <= last && x !in received
  {
    R.NotReceivedMembers(received, first, last + 1);
  }

  // ----- the repairs -----

  lemma {:induction false} FoundByNumber(history: seq<W.HistoryEntry>, i: nat)
    requires i < |history|
    requires forall j, k :: 0 <= j < k < |history| ==> history[j].sequenceNumber != history[k].sequenceNumber
    ensures W.FindInHistory(history, history[i].sequenceNumber) == Some(history[i].message)
    decreases i
  {
    if i > 0 {
      assert history[0].sequenceNumber != history[i].sequenceNumber;
      assert history[i] == history[1..][i - 1];
      FoundByNumber(history[1..], i - 1);
    }
  }

  /** The history holds the message for every number in its range. */
  lemma HistoryHas(s: System, number: U64)
    requires Safe(s) && FirstInHistory(s) <= number <= |s.published|
    ensures var found := W.FindInHistory(s.writer.history, number);
      && found.Some? && CarriesNumbered(s.writer.mapping, s.published, found.value, number)
      && exists i :: 0 <= i < |s.writer.history| && s.writer.history[i].message == found.value
  {
    hide GenuineNetwork, AcceptedWerePublished, ReceivedAreAccepted, CarriesNumbered, IsAscending;
    var i := number - FirstInHistory(s);
    assert s.writer.history[i].sequenceNumber == number;
    FoundByNumber(s.writer.history, i);
  }

  /** The datagram that repairs `number`. */
  function RepairDatagram(s: System, number: U64): seq<Byte> {
    var found := W.FindInHistory(s.writer.history, number);
    if found.None? || Serialized(found.value).None? then [] else Serialized(found.value).value
  }

  /** Every repair asked for is found and sent. */
  lemma RepairsAreSent(s: System, wp: EndpointMatch, rp: EndpointMatch, acknack: Message)
    requires Safe(s) && Paired(s, wp, rp)
    requires acknack.guidPrefix == wp.remoteEndpoint.participantGuidPrefix
    requires W.MatchedAckNack(wp, acknack.acknacks).Some?
    requires forall x <- W.MatchedAckNack(wp, acknack.acknacks).value.missingSequenceNumbers ::
      FirstInHistory(s) <= x <= |s.published|
    ensures var (w, repairs) := W.RepairSamplesBuilt(s.writer, wp, acknack);
      var numbers := W.MatchedAckNack(wp, acknack.acknacks).value.missingSequenceNumbers;
      && repairs.Some? && |repairs.value| == |numbers|
      && w == s.writer.(repairsSent := w.repairsSent)
      && forall x <- numbers :: RepairDatagram(s, x) in Sent(repairs.value)
  {
    hide Safe, Serialized, W.FindInHistory, CarriesNumbered;
    var numbers := W.MatchedAckNack(wp, acknack.acknacks).value.missingSequenceNumbers;
    forall i | 0 <= i < |numbers|
      ensures W.FindInHistory(s.writer.history, numbers[i]).Some?
    {
      assert numbers[i] in numbers;
      HistoryHas(s, numbers[i]);
    }
    var repairs := W.Repairs(s.writer.history, numbers);
    forall x <- numbers
      ensures RepairDatagram(s, x) in Sent(repairs.value)
    {
      var i :| 0 <= i < |numbers| && numbers[i] == x;
      HistoryHas(s, x);
      DataSurvives(s.writer.mapping, s.published, repairs.value[i], x);
      assert repairs.value[i] in repairs.value;
    }
  }

  // ----- deliveries -----

  lemma {:induction false} AscendingIsSparse(xs: seq<U64>, total: nat)
    requires IsAscending(xs) && forall x <- xs :: 1 <= x <= total
    ensures |xs| <= total
    decreases |xs|
  {
    if xs != [] {
      var n := |xs| - 1;
      assert xs[n] in xs;
      forall x <- xs[..n]
        ensures 1 <= x <= xs[n] - 1
      {
        var i :| 0 <= i < n && xs[i] == x;
        assert xs[i] in xs;
      }
      AscendingIsSparse(xs[..n], xs[n] - 1);
    }
  }

  /** While some published number is missing, fewer than all have been received. */
  lemma RoomForMissing(s: System, number: U64)
    requires Safe(s) && 1 <= number <= |s.published| && number !in s.reader.received
    ensures |s.reader.received| < |s.published|
  {
    hide HistoryIsTail, GenuineNetwork, IsAscending;
    var longer := Insert(number, s.reader.received);
    InsertGrows(number, s.reader.received);
    forall x <- longer
      ensures 1 <= x <= |s.published|
    {
      if x != number {
        assert x in s.reader.received;
        var i :| 0 <= i < |s.accepted| && s.accepted[i].sequence == x;
      }
    }
    AscendingIsSparse(longer, |s.published|);
  }

  lemma {:induction false} FoundIfThere(writers: seq<R.WriterRecord>, rp: EndpointMatch, i: nat)
    requires i < |writers| && R.IsRecordOf(rp, writers[i])
    ensures R.FindWriterState(writers, rp) <= i
    decreases i
  {
    if i > 0 && !R.IsRecordOf(rp, writers[0]) {
      FoundIfThere(writers[1..], rp, i - 1);
    }
  }

  lemma SeenStaysKnown(writers: seq<R.WriterRecord>, rp: EndpointMatch, number: U64, nowMs: U64)
    ensures var seen := R.Seen(writers, R.FindWriterState(writers, rp), rp, number, nowMs);
      R.FindWriterState(seen, rp) < |seen|
  {
    hide R.FindWriterState;
    var i := R.FindWriterState(writers, rp);
    var seen := R.Seen(writers, i, rp, number, nowMs);
    FoundIfThere(seen, rp, i);
  }

  /** Any delivery keeps what was received, and the room that is left. */
  lemma DeliveryKeeps(s: System, rp: EndpointMatch, datagram: seq<Byte>, nowMs: U64, total: nat)
    requires IsAscending(s.reader.received) && HasRoom(s.reader, rp, total)
    ensures var s' := Step(s, Deliver(rp, datagram, nowMs));
      && s'.writer == s.writer && s'.published == s.published && s'.network == s.network
      && s'.reader.mapping == s.reader.mapping && s'.reader.acknackCount == s.reader.acknackCount
      && HasRoom(s'.reader, rp, total)
      && forall x <- s.reader.received :: x in s'.reader.received
  {
    hide Parsed, Decoded, R.ReadyFor, R.FindWriterState, R.Seen, IsAscending;
    if datagram in s.network && Parsed(datagram).Some? {
      var data := R.MatchedData(rp, Parsed(datagram).value.data);
      if data.Some? {
        SeenStaysKnown(s.reader.writers, rp, data.value.writerSequenceNumber, nowMs);
      }
    }
  }

  /** A delivered repair is received, now or earlier. */
  lemma DeliveryTakes(s: System, wp: EndpointMatch, rp: EndpointMatch, datagram: seq<Byte>, number: U64, nowMs: U64)
    requires Safe(s) && Paired(s, wp, rp) && HasRoom(s.reader, rp, |s.published|)
    requires datagram in s.network && Parsed(datagram).Some?
    requires CarriesNumbered(s.writer.mapping, s.published, Parsed(datagram).value, number)
    requires Parsed(datagram).value.data[0].readerId == s.reader.mapping.readerId
    ensures number in Step(s, Deliver(rp, datagram, nowMs)).reader.received
  {
    hide Parsed, Decoded, Encoded, Safe, IsAscending, R.FindWriterState, R.Seen, BuildEndpointMatch, FitsUdpPayload;
    var message := Parsed(datagram).value;
    EnvelopeRoundTrip(s.writer.mapping, s.reader.mapping, s.published[number - 1]);
    assert R.MatchedData(rp, message.data) == Some(message.data[0]);
    if number !in s.reader.received {
      RoomForMissing(s, number);
    }
    HistoryBounds(s);
  }

  ghost function Stepped(s: System, a: Action): (s': System)
    requires Safe(s)
    ensures Safe(s')
  {
    StepKeepsSafe(s, a);
    Step(s, a)
  }

  datatype Delivery = Delivery(datagram: seq<Byte>, nowMs: U64)

  /** The state after a series of deliveries, in the order given. */
  ghost function Delivered(s: System, rp: EndpointMatch, deliveries: seq<Delivery>): System
    requires Safe(s)
    decreases |deliveries|
  {
    if deliveries == [] then s
    else
      Delivered(Stepped(s, Deliver(rp, deliveries[0].datagram, deliveries[0].nowMs)), rp, deliveries[1..])
  }

  /** The datagram for the number is among those delivered. */
  ghost predicate Arrives(deliveries: seq<Delivery>, datagram: seq<Byte>) {
    exists i :: 0 <= i < |deliveries| && deliveries[i].datagram == datagram
  }

  lemma {:induction false} DeliveriesKeep(s: System, wp: EndpointMatch, rp: EndpointMatch, deliveries: seq<Delivery>)
    requires Safe(s) && Paired(s, wp, rp) && HasRoom(s.reader, rp, |s.published|)
    ensures var s' := Delivered(s, rp, deliveries);
      && Safe(s') && Paired(s', wp, rp) && HasRoom(s'.reader, rp, |s'.published|)
      && s'.writer == s.writer && s'.published == s.published
      && s'.reader.acknackCount == s.reader.acknackCount && s'.reader.mapping == s.reader.mapping
      && forall x <- s.reader.received :: x in s'.reader.received
    decreases |deliveries|
  {
    hide Step, HasRoom, HistoryIsTail, GenuineNetwork, AcceptedWerePublished, ReceivedAreAccepted, IsAscending;
    if deliveries != [] {
      var d := deliveries[0];
      StepKeepsSafe(s, Deliver(rp, d.datagram, d.nowMs));
      DeliveryKeeps(s, rp, d.datagram, d.nowMs, |s.published|);
      DeliveriesKeep(Step(s, Deliver(rp, d.datagram, d.nowMs)), wp, rp, deliveries[1..]);
    }
  }

  /** Whatever else is delivered, in whatever order and how often, a repair that arrives is received. */
  lemma {:induction false} ArrivedIsReceived(
    s: System, wp: EndpointMatch, rp: EndpointMatch, deliveries: seq<Delivery>, datagram: seq<Byte>, number: U64)
    requires Safe(s) && Paired(s, wp, rp) && HasRoom(s.reader, rp, |s.published|)
    requires datagram in s.network && Parsed(datagram).Some?
    requires CarriesNumbered(s.writer.mapping, s.published, Parsed(datagram).value, number)
    requires Parsed(datagram).value.data[0].readerId == s.reader.mapping.readerId
    requires Arrives(deliveries, datagram)
    ensures number in Delivered(s, rp, deliveries).reader.received
    decreases |deliveries|
  {
    hide Step, HasRoom, HistoryIsTail, GenuineNetwork, AcceptedWerePublished, ReceivedAreAccepted, IsAscending, Parsed;
    var i :| 0 <= i < |deliveries| && deliveries[i].datagram == datagram;
    var d := deliveries[0];
    var s' := Step(s, Deliver(rp, d.datagram, d.nowMs));
    StepKeepsSafe(s, Deliver(rp, d.datagram, d.nowMs));
    DeliveryKeeps(s, rp, d.datagram, d.nowMs, |s.published|);
    if i == 0 {
      DeliveryTakes(s, wp, rp, datagram, number, d.nowMs);
      DeliveriesKeep(s', wp, rp, deliveries[1..]);
    } else {
      assert deliveries[1..][i - 1].datagram == datagram;
      ArrivedIsReceived(s', wp, rp, deliveries[1..], datagram, number);
    }
  }

  // ----- the round -----

  function Transmitted(m: Option<Message>): Option<Message> {
    if m.None? then None else OverTheWire(m.value)
  }

  /** The heartbeat as it reaches the reader. */
  function HeartbeatOnWire(s: System, wp: EndpointMatch, finalFlag: bool): Option<Message> {
    Transmitted(W.HeartbeatBuilt(s.writer, wp, finalFlag).1)
  }

  /** The answer to it as it reaches the writer. */
  function AckNackOnWire(s: System, rp: EndpointMatch, heartbeat: Option<Message>): Option<Message> {
    if heartbeat.None? || R.NeverAnswered(s.reader.mapping, rp, heartbeat.value) then None
    else Transmitted(R.AckNackBuilt(s.reader, rp, heartbeat.value).1)
  }

  ghost function AfterAnswer(s: System, wp: EndpointMatch, rp: EndpointMatch, finalFlag: bool): (s': System)
    requires Safe(s)
    ensures Safe(s')
  {
    var s1, heartbeat := Stepped(s, SendHeartbeat(wp, finalFlag)), HeartbeatOnWire(s, wp, finalFlag);
    if heartbeat.None? then s1 else Stepped(s1, AskForMissing(rp, heartbeat.value))
  }

  /** The heartbeat, the ACKNACK that answers it and the repairs that answer that, all sent. */
  ghost function AfterRepair(s: System, wp: EndpointMatch, rp: EndpointMatch, finalFlag: bool): (s': System)
    requires Safe(s)
    ensures Safe(s')
  {
    var s2, acknack := AfterAnswer(s, wp, rp, finalFlag), AckNackOnWire(s, rp, HeartbeatOnWire(s, wp, finalFlag));
    if acknack.None? then s2 else Stepped(s2, Repair(wp, acknack.value))
  }

  lemma AnswerReady(s: System, wp: EndpointMatch, rp: EndpointMatch, finalFlag: bool)
    requires RoundPossible(s, wp, rp)
    ensures var s' := AfterAnswer(s, wp, rp, finalFlag);
      var acknack := AckNackOnWire(s, rp, HeartbeatOnWire(s, wp, finalFlag));
      && s' == s.(writer := s.writer.(heartbeatCount := s'.writer.heartbeatCount),
                  reader := s.reader.(acknackCount := s'.reader.acknackCount))
      && acknack.Some? && acknack.value.guidPrefix == wp.remoteEndpoint.participantGuidPrefix
      && W.MatchedAckNack(wp, acknack.value.acknacks).Some?
      && var answer := W.MatchedAckNack(wp, acknack.value.acknacks).value;
         && answer.finalFlag == (answer.missingSequenceNumbers == [])
         && forall x: U64 :: x in answer.missingSequenceNumbers <==>
              FirstInHistory(s) <= x <= |s.published| && x !in s.reader.received
  {
    hide Safe, W.HeartbeatBuilt, R.AckNackBuilt, AddressedTo, HasRoom, Paired, Step, IsAscending, OverTheWire;
    HeartbeatNamesHistory(s, wp, rp, finalFlag);
    var heartbeat := W.HeartbeatBuilt(s.writer, wp, finalFlag).1.value;
    AckNackNamesMissing(s, wp, rp, heartbeat);
    HistoryBounds(s);
    HeartbeatStep(s, wp, finalFlag);
    AskStep(Stepped(s, SendHeartbeat(wp, finalFlag)), rp, heartbeat);
  }

  lemma RepairsReady(s: System, wp: EndpointMatch, rp: EndpointMatch, finalFlag: bool)
    requires RoundPossible(s, wp, rp)
    ensures var s' := AfterRepair(s, wp, rp, finalFlag);
      && Paired(s', wp, rp) && HasRoom(s'.reader, rp, |s'.published|)
      && s'.published == s.published && s'.writer.history == s.writer.history
      && s'.writer.mapping == s.writer.mapping
      && s'.reader == s.reader.(acknackCount := s'.reader.acknackCount)
      && forall x: U64 :: FirstInHistory(s) <= x <= |s.published| && x !in s.reader.received ==>
           RepairDatagram(s, x) in s'.network
  {
    hide Safe, AfterAnswer, AckNackOnWire, HeartbeatOnWire, W.RepairSamplesBuilt, RepairDatagram, W.ReadyFor;
    hide R.ReadyFor;
    hide AddressedTo, Step, IsAscending;
    AnswerReady(s, wp, rp, finalFlag);
    var s2, acknack := AfterAnswer(s, wp, rp, finalFlag), AckNackOnWire(s, rp, HeartbeatOnWire(s, wp, finalFlag));
    HistoryBounds(s2);
    RepairStep(s2, wp, acknack.value);
    RepairsAreSent(s2, wp, rp, acknack.value);
    SameDatagrams(s, s2);
  }

  lemma HeartbeatStep(s: System, wp: EndpointMatch, finalFlag: bool)
    requires IsAscending(s.reader.received)
    ensures Step(s, SendHeartbeat(wp, finalFlag)) == s.(writer := W.HeartbeatBuilt(s.writer, wp, finalFlag).0)
  {
  }

  lemma AskStep(s: System, rp: EndpointMatch, heartbeat: Message)
    requires IsAscending(s.reader.received) && !R.NeverAnswered(s.reader.mapping, rp, heartbeat)
    ensures Step(s, AskForMissing(rp, heartbeat)) == s.(reader := R.AckNackBuilt(s.reader, rp, heartbeat).0)
  {
  }

  lemma RepairStep(s: System, wp: EndpointMatch, acknack: Message)
    requires IsAscending(s.reader.received)
    ensures Step(s, Repair(wp, acknack)) ==
      s.(writer := W.RepairSamplesBuilt(s.writer, wp, acknack).0,
         network := s.network + SentIfAny(W.RepairSamplesBuilt(s.writer, wp, acknack).1))
  {
  }

  lemma SameDatagrams(s: System, s': System)
    requires s'.writer.history == s.writer.history
    ensures forall x: U64 :: RepairDatagram(s', x) == RepairDatagram(s, x)
  {
    hide Serialized, W.FindInHistory;
  }

  /** The repair for a number carries its sample to this reader. */
  lemma RepairCarries(s: System, number: U64)
    requires Safe(s) && AddressedTo(s.writer.history, s.reader.mapping.readerId)
    requires FirstInHistory(s) <= number <= |s.published|
    ensures var parsed := Parsed(RepairDatagram(s, number));
      && parsed.Some?
      && CarriesNumbered(s.writer.mapping, s.published, parsed.value, number)
      && parsed.value.data[0].readerId == s.reader.mapping.readerId
  {
    hide Safe, Serialized, Parsed, W.FindInHistory, Carries;
    HistoryHas(s, number);
    DataSurvives(s.writer.mapping, s.published, W.FindInHistory(s.writer.history, number).value, number);
  }

  /** The sample published under the number is among those accepted. */
  ghost predicate AcceptedAs(s: System, number: U64) {
    1 <= number <= |s.published|
    && exists i :: 0 <= i < |s.accepted| && s.accepted[i].sequence == number
         && s.accepted[i].payload == s.published[number - 1].payload
  }

  lemma ReceivedIsAccepted(s: System, number: U64)
    requires Safe(s) && number in s.reader.received
    ensures AcceptedAs(s, number)
  {
    hide HistoryIsTail, GenuineNetwork, IsAscending;
    var i :| 0 <= i < |s.accepted| && s.accepted[i].sequence == number;
  }

  lemma NumberArrives(
    s: System, wp: EndpointMatch, rp: EndpointMatch, finalFlag: bool, deliveries: seq<Delivery>, x: U64)
    requires RoundPossible(s, wp, rp) && FirstInHistory(s) <= x <= |s.published|
    requires x !in s.reader.received ==> Arrives(deliveries, RepairDatagram(s, x))
    ensures x in Delivered(AfterRepair(s, wp, rp, finalFlag), rp, deliveries).reader.received
  {
    hide Safe, Paired, HasRoom, RepairDatagram, Delivered, AfterRepair, CarriesNumbered, IsAscending, AddressedTo;
    hide Arrives, Parsed;
    var s1 := AfterRepair(s, wp, rp, finalFlag);
    RepairsReady(s, wp, rp, finalFlag);
    DeliveriesKeep(s1, wp, rp, deliveries);
    HistoryBounds(s);
    if x !in s.reader.received {
      RepairCarries(s, x);
      ArrivedIsReceived(s1, wp, rp, deliveries, RepairDatagram(s, x), x);
    }
  }

  /** Every repair the round calls for is delivered at least once. */
  ghost predicate NothingLost(s: System, deliveries: seq<Delivery>) {
    forall x: U64 :: FirstInHistory(s) <= x <= |s.published| && x !in s.reader.received ==>
      Arrives(deliveries, RepairDatagram(s, x))
  }

  /**
   After one loss-free round everything in the history has been received: whatever was delivered in
   between, in whatever order and however often, provided each repair arrived at least once.
   */
  lemma LosslessRound(
    s: System, wp: EndpointMatch, rp: EndpointMatch, finalFlag: bool, deliveries: seq<Delivery>)
    requires RoundPossible(s, wp, rp) && NothingLost(s, deliveries)
    ensures var s' := Delivered(AfterRepair(s, wp, rp, finalFlag), rp, deliveries);
      && Safe(s') && s'.published == s.published
      && forall x: U64 :: FirstInHistory(s) <= x <= |s.published| ==> x in s'.reader.received && AcceptedAs(s', x)
  {
    hide Safe, Paired, HasRoom, RepairDatagram, Delivered, AfterRepair, AddressedTo, Arrives, AcceptedAs;
    RepairsReady(s, wp, rp, finalFlag);
    DeliveriesKeep(AfterRepair(s, wp, rp, finalFlag), wp, rp, deliveries);
    forall x: U64 | FirstInHistory(s) <= x <= |s.published|
      ensures x in Delivered(AfterRepair(s, wp, rp, finalFlag), rp, deliveries).reader.received
      ensures AcceptedAs(Delivered(AfterRepair(s, wp, rp, finalFlag), rp, deliveries), x)
    {
      NumberArrives(s, wp, rp, finalFlag, deliveries, x);
      ReceivedIsAccepted(Delivered(AfterRepair(s, wp, rp, finalFlag), rp, deliveries), x);
    }
  }

  /** Asked about numbers it has all received, a reader answers with an empty list and the final flag. */
  lemma NothingMissingIsFinal(r: R.ReaderState, rp: EndpointMatch, heartbeat: Message)
    requires !R.NeverAnswered(r.mapping, rp, heartbeat) && R.AskedRange(r.mapping, rp, heartbeat).Some?
    requires var (first, last) := R.AskedRange(r.mapping, rp, heartbeat).value;
      forall x: U64 :: first <= x <= last ==> x in r.received
    ensures var answer := R.AckNackBuilt(r, rp, heartbeat).1;
      answer.Some? && answer.value.acknacks[0].missingSequenceNumbers == [] && answer.value.acknacks[0].finalFlag
  {
    hide IsAscending;
    var (first, last) := R.AskedRange(r.mapping, rp, heartbeat).value;
    R.NotReceivedMembers(r.received, first, last + 1);
    NoElements(R.NotReceived(r.received, first, last + 1));
  }

  /**
   So after a loss-free round the next one can follow, and its ACKNACK, as it reaches the writer, names
   nothing and is final.
   */
  lemma SecondAnswerIsEmpty(
    s: System, wp: EndpointMatch, rp: EndpointMatch, finalFlag: bool, deliveries: seq<Delivery>, again: bool)
    requires RoundPossible(s, wp, rp) && NothingLost(s, deliveries)
    requires var s' := Delivered(AfterRepair(s, wp, rp, finalFlag), rp, deliveries);
      Truncate32(Increment(s'.writer.heartbeatCount)) != 0 && Truncate32(Increment(s'.reader.acknackCount)) != 0
    ensures var s' := Delivered(AfterRepair(s, wp, rp, finalFlag), rp, deliveries);
      var acknack := AckNackOnWire(s', rp, HeartbeatOnWire(s', wp, again));
      && RoundPossible(s', wp, rp)
      && acknack.Some? && acknack.value.guidPrefix == wp.remoteEndpoint.participantGuidPrefix
      && var answer := W.MatchedAckNack(wp, acknack.value.acknacks);
         answer.Some? && answer.value.missingSequenceNumbers == [] && answer.value.finalFlag
  {
    hide Safe, Paired, HasRoom, NothingLost, Delivered, AfterRepair, AcceptedAs, RepairDatagram, Increment;
    hide AckNackOnWire, HeartbeatOnWire, W.MatchedAckNack;
    var s' := Delivered(AfterRepair(s, wp, rp, finalFlag), rp, deliveries);
    LosslessRound(s, wp, rp, finalFlag, deliveries);
    RepairsReady(s, wp, rp, finalFlag);
    DeliveriesKeep(AfterRepair(s, wp, rp, finalFlag), wp, rp, deliveries);
    AnswerReady(s', wp, rp, again);
    var acknack := AckNackOnWire(s', rp, HeartbeatOnWire(s', wp, again));
    NoElements(W.MatchedAckNack(wp, acknack.value.acknacks).value.missingSequenceNumbers);
  }

  // ----- a heartbeat that is never answered -----

  /** A heartbeat of the matched writer about the largest number alone. */
  function LastHeartbeat(pair: EndpointMatch): Message {
    var remote := pair.remoteEndpoint;
    Message(
      OPEN_AUTOSAR_VENDOR, remote.participantGuidPrefix, [],
      [HeartbeatSubmessage(pair.localEndpointId, remote.endpointId, R.LAST_NUMBER, R.LAST_NUMBER, 1, false, false)],
      [])
  }

  /** It is printed and parsed like any other, passes every check of the reader, and keeps it busy for ever. */
  lemma LastHeartbeatHangs(r: R.ReaderState, pair: EndpointMatch)
    requires R.ReadyFor(r.mapping, pair)
    ensures OverTheWire(LastHeartbeat(pair)) == Some(LastHeartbeat(pair))
    ensures R.AskedRange(r.mapping, pair, LastHeartbeat(pair)) == Some((R.LAST_NUMBER, R.LAST_NUMBER))
    ensures !R.CallReturns(r, pair, LastHeartbeat(pair))
  {
    hide OverTheWire, R.ReadyFor, R.CallReturns;
    HeartbeatSurvives(LastHeartbeat(pair));
    R.ReturnsUnlessAtLastNumber(r, pair, LastHeartbeat(pair));
  }

  const EXAMPLE_READER_PREFIX: GuidPrefix := seq(12, _ => 1)
  const EXAMPLE_WRITER_PREFIX: GuidPrefix := seq(12, _ => 2)
  const EXAMPLE_ENTITY: EntityId := [0, 0, 1, 3]
  const EXAMPLE_NAME: Name := [0x61]
  const EXAMPLE_QOS := QosProfile(Reliable, Volatile, Automatic, Shared, 1, 0, 0, 0, 0)
  const EXAMPLE_MAPPING := TopicMapping(
    ServiceIdentifier(1, 1, 1, 0), EXAMPLE_NAME, EXAMPLE_NAME, EXAMPLE_NAME, EXAMPLE_QOS,
    EXAMPLE_READER_PREFIX, EXAMPLE_ENTITY, EXAMPLE_ENTITY)
  const EXAMPLE_WRITER := DiscoveredEndpoint(
    Publication, EXAMPLE_WRITER_PREFIX, EXAMPLE_ENTITY, EXAMPLE_NAME, EXAMPLE_NAME,
    SedpEndpoint.SEDP_RELIABILITY_RELIABLE, SedpEndpoint.SEDP_DURABILITY_VOLATILE)

  /** Such a reader and writer exist. */
  lemma SomeCallNeverReturns()
    ensures var pair := EndpointMatch(Subscription, EXAMPLE_ENTITY, EXAMPLE_WRITER);
      OverTheWire(LastHeartbeat(pair)) == Some(LastHeartbeat(pair))
      && !R.CallReturns(R.NewReader(EXAMPLE_MAPPING), pair, LastHeartbeat(pair))
  {
    hide OverTheWire, R.CallReturns;
    assert EXAMPLE_READER_PREFIX[0] != EXAMPLE_WRITER_PREFIX[0] && EXAMPLE_ENTITY[3] != NO_ENTITY[3];
    LastHeartbeatHangs(R.NewReader(EXAMPLE_MAPPING), EndpointMatch(Subscription, EXAMPLE_ENTITY, EXAMPLE_WRITER));
  }
}
