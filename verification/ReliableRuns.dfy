/**
 One reliable writer and one reliable reader joined by a network that may lose, repeat and reorder
 datagrams. Heartbeats and ACKNACKs may say anything at all: safety does not depend on them.
 */
module ReliableRuns {
  import opened Bytes
  import opened Suffixes
  import opened Ascending
  import opened RtpsMessage
  import opened RtpsRoundTrip
  import opened ServiceTypes
  import opened DdsTypes
  import opened SampleEnvelope
  import W = ReliableWriter
  import R = ReliableReader

  /** `published` and `accepted` are the logs of what was ever published and accepted. */
  datatype System = System(
    writer: W.WriterState,
    reader: R.ReaderState,
    network: set<seq<Byte>>,
    published: seq<EventSample>,
    accepted: seq<EventSample>)

  datatype Action =
    | Publish(pair: EndpointMatch, sample: EventSample)
    | SendHeartbeat(pair: EndpointMatch, finalFlag: bool)
    | Repair(pair: EndpointMatch, acknackMessage: Message)
    | Replay(pair: EndpointMatch)
    | Deliver(pair: EndpointMatch, datagram: seq<Byte>, nowMs: U64)
    | AskForMissing(pair: EndpointMatch, heartbeatMessage: Message)
    | Expire(nowMs: U64)

  function Initial(writerMapping: TopicMapping, depth: nat, readerMapping: TopicMapping): System {
    System(W.NewWriter(writerMapping, depth), R.NewReader(readerMapping), {}, [], [])
  }

  function Sent(messages: seq<Message>): set<seq<Byte>> {
    set m | m in messages && Serialized(m).Some? :: Serialized(m).value
  }

  function SentIfAny(messages: Option<seq<Message>>): set<seq<Byte>> {
    if messages.None? then {} else Sent(messages.value)
  }

  /** What each action does; a datagram can only be delivered if it was sent, but as often as one likes. */
  function Step(s: System, a: Action): System
    requires IsAscending(s.reader.received)
  {
    match a
    case Publish(pair, sample) =>
      var (w, m) := W.SampleBuilt(s.writer, pair, sample);
      if m.None? then s.(writer := w)
      else s.(writer := w, published := s.published + [sample], network := s.network + Sent([m.value]))
    case SendHeartbeat(pair, finalFlag) =>
      s.(writer := W.HeartbeatBuilt(s.writer, pair, finalFlag).0)
    case Repair(pair, acknackMessage) =>
      var (w, repairs) := W.RepairSamplesBuilt(s.writer, pair, acknackMessage);
      s.(writer := w, network := s.network + SentIfAny(repairs))
    case Replay(pair) =>
      var (w, samples) := W.HistoricalSamplesBuilt(s.writer, pair);
      s.(writer := w, network := s.network + SentIfAny(samples))
    case Deliver(pair, datagram, nowMs) =>
      if datagram !in s.network || Parsed(datagram).None? then s
      else
        var (r, sample) := R.SampleAccepted(s.reader, pair, Parsed(datagram).value, nowMs);
        s.(reader := r, accepted := s.accepted + if sample.None? then [] else [sample.value])
    case AskForMissing(pair, heartbeatMessage) =>
      if R.NeverAnswered(s.reader.mapping, pair, heartbeatMessage) then s
      else s.(reader := R.AckNackBuilt(s.reader, pair, heartbeatMessage).0)
    case Expire(nowMs) => s.(reader := R.WritersExpired(s.reader, nowMs).0)
  }

  // ----- the invariant -----

  /** The message carries exactly the published sample, under its number, and fits a datagram. */
  ghost predicate Carries(m: TopicMapping, message: Message, number: nat, sample: EventSample) {
    && ValidMapping(m) && Encodable(m, sample)
    && number < U64_MODULUS && |message.data| == 1 && FitsUdpPayload(message)
    && message == W.DataMessage(m, message.data[0].readerId, Encoded(m, sample).value, number)
  }

  /** The history is the contiguous run of the last numbers published, each with its own sample. */
  ghost predicate HistoryIsTail(w: W.WriterState, published: seq<EventSample>) {
    && |published| < U64_MODULUS
    && w.nextSequenceNumber == (|published| + 1) % U64_MODULUS
    && w.samplesSent == |published|
    && |w.history| == (if w.historyDepth < |published| then w.historyDepth else |published|)
    && EndsWith(w.mapping, w.history, published)
  }

  /** Each entry holds the sample published under its number, the last entry the last one published. */
  ghost predicate EndsWith(m: TopicMapping, history: seq<W.HistoryEntry>, published: seq<EventSample>) {
    && |history| <= |published|
    && forall i :: 0 <= i < |history| ==>
         var number := |published| - |history| + i + 1;
         history[i].sequenceNumber == number && CarriesNumbered(m, published, history[i].message, number)
  }

  ghost predicate GenuineMessage(m: TopicMapping, published: seq<EventSample>, message: Message) {
    exists number: nat :: CarriesNumbered(m, published, message, number)
  }

  ghost predicate CarriesNumbered(m: TopicMapping, published: seq<EventSample>, message: Message, number: nat) {
    1 <= number <= |published| && Carries(m, message, number, published[number - 1])
  }

  ghost predicate GenuineNetwork(s: System) {
    forall d <- s.network ::
      Parsed(d).Some? && GenuineMessage(s.writer.mapping, s.published, Parsed(d).value)
  }

  /** Every accepted sample is one published under its number, and no number is accepted twice. */
  ghost predicate AcceptedWerePublished(published: seq<EventSample>, accepted: seq<EventSample>) {
    && (forall i :: 0 <= i < |accepted| ==>
          && 1 <= accepted[i].sequence <= |published|
          && accepted[i].payload == published[accepted[i].sequence - 1].payload)
    && forall i, j :: 0 <= i < j < |accepted| ==> accepted[i].sequence != accepted[j].sequence
  }

  ghost predicate ReceivedAreAccepted(r: R.ReaderState, accepted: seq<EventSample>) {
    && IsAscending(r.received)
    && |r.received| == |accepted|
    && r.samplesReceived == |accepted| % U64_MODULUS
    && (forall i :: 0 <= i < |accepted| ==> accepted[i].sequence in r.received)
    && forall x <- r.received :: exists i :: 0 <= i < |accepted| && accepted[i].sequence == x
  }

  ghost predicate Safe(s: System) {
    && IsAscending(s.reader.received)
    && HistoryIsTail(s.writer, s.published)
    && GenuineNetwork(s)
    && AcceptedWerePublished(s.published, s.accepted)
    && ReceivedAreAccepted(s.reader, s.accepted)
  }

  // ----- the writer's steps -----

  /** Sending messages that carry published samples keeps the network genuine. */
  lemma SentAreGenuine(m: TopicMapping, published: seq<EventSample>, messages: seq<Message>)
    requires forall x <- messages :: GenuineMessage(m, published, x)
    ensures forall d <- Sent(messages) :: Parsed(d).Some? && GenuineMessage(m, published, Parsed(d).value)
  {
    hide Serialized, Parsed, Encoded, Encodable, ValidMapping;
    forall d <- Sent(messages)
      ensures Parsed(d).Some? && GenuineMessage(m, published, Parsed(d).value)
    {
      var x :| x in messages && Serialized(x).Some? && d == Serialized(x).value;
      SerializedParses(x);
      assert Normalized(x) == x;
    }
  }

  lemma GenuineStays(m: TopicMapping, published: seq<EventSample>, sample: EventSample, message: Message)
    requires GenuineMessage(m, published, message)
    ensures GenuineMessage(m, published + [sample], message)
  {
    hide Carries;
    var number: nat :| CarriesNumbered(m, published, message, number);
    assert CarriesNumbered(m, published + [sample], message, number);
  }

  lemma EntryAppended(
    m: TopicMapping, history: seq<W.HistoryEntry>, published: seq<EventSample>, e: W.HistoryEntry, sample: EventSample)
    requires EndsWith(m, history, published)
    requires e.sequenceNumber == |published| + 1 && Carries(m, e.message, |published| + 1, sample)
    ensures EndsWith(m, history + [e], published + [sample])
  {
    hide Carries;
  }

  lemma OldestDropped(m: TopicMapping, history: seq<W.HistoryEntry>, published: seq<EventSample>, depth: nat)
    requires EndsWith(m, history, published)
    ensures EndsWith(m, LastOf(depth, history), published)
    ensures |LastOf(depth, history)| == if depth < |history| then depth else |history|
  {
    hide CarriesNumbered;
  }

  lemma HistoryGrows(s: System, pair: EndpointMatch, sample: EventSample)
    requires HistoryIsTail(s.writer, s.published)
    requires W.SampleBuilt(s.writer, pair, sample).1.Some?
    ensures HistoryIsTail(W.SampleBuilt(s.writer, pair, sample).0, s.published + [sample])
    ensures Carries(s.writer.mapping, W.SampleBuilt(s.writer, pair, sample).1.value, |s.published| + 1, sample)
  {
    hide Carries, EndsWith, LastOf, W.DataMessageForReader, W.ReadyFor, W.DepthOk;
    NumberIsNext(s.writer, s.published, pair, sample);
    var entry := W.HistoryEntry(s.writer.nextSequenceNumber, W.SampleBuilt(s.writer, pair, sample).1.value);
    EntryAppended(s.writer.mapping, s.writer.history, s.published, entry, sample);
    OldestDropped(
      s.writer.mapping, s.writer.history + [entry], s.published + [sample], s.writer.historyDepth);
  }

  lemma NumberIsNext(w: W.WriterState, published: seq<EventSample>, pair: EndpointMatch, sample: EventSample)
    requires HistoryIsTail(w, published) && W.SampleBuilt(w, pair, sample).1.Some?
    ensures w.nextSequenceNumber == |published| + 1 && |published| + 1 < U64_MODULUS && 0 < w.historyDepth
    ensures Carries(w.mapping, W.SampleBuilt(w, pair, sample).1.value, |published| + 1, sample)
  {
    hide ValidMapping, W.ReadyFor, FitsUdpPayload;
  }

  lemma PublishKeepsSafe(s: System, pair: EndpointMatch, sample: EventSample)
    requires Safe(s)
    ensures Safe(Step(s, Publish(pair, sample)))
  {
    hide Parsed, Serialized, HistoryIsTail, Carries, ReceivedAreAccepted, GenuineMessage;
    var (w, m) := W.SampleBuilt(s.writer, pair, sample);
    if m.Some? {
      HistoryGrows(s, pair, sample);
      var s' := Step(s, Publish(pair, sample));
      LastIsGenuine(s.writer.mapping, s.published, sample, m.value);
      SentAreGenuine(s.writer.mapping, s'.published, [m.value]);
      forall d <- s.network
        ensures GenuineMessage(s.writer.mapping, s'.published, Parsed(d).value)
      {
        GenuineStays(s.writer.mapping, s.published, sample, Parsed(d).value);
      }
    }
  }

  lemma LastIsGenuine(m: TopicMapping, published: seq<EventSample>, sample: EventSample, message: Message)
    requires Carries(m, message, |published| + 1, sample)
    ensures GenuineMessage(m, published + [sample], message)
  {
    hide Carries;
    assert CarriesNumbered(m, published + [sample], message, |published| + 1);
  }

  lemma HistoryIsGenuine(w: W.WriterState, published: seq<EventSample>, i: nat)
    requires HistoryIsTail(w, published) && i < |w.history|
    ensures GenuineMessage(w.mapping, published, w.history[i].message)
  {
    hide CarriesNumbered;
  }

  lemma {:induction false} FoundIsInHistory(history: seq<W.HistoryEntry>, number: U64)
    requires W.FindInHistory(history, number).Some?
    ensures exists i :: (
      0 <= i < |history| && history[i].sequenceNumber == number
      && history[i].message == W.FindInHistory(history, number).value)
    decreases |history|
  {
    if history[0].sequenceNumber != number {
      FoundIsInHistory(history[1..], number);
      var i :| 0 <= i < |history| - 1 && history[1..][i].sequenceNumber == number
        && history[1..][i].message == W.FindInHistory(history[1..], number).value;
      assert history[i + 1] == history[1..][i];
    }
  }

  lemma RepairKeepsSafe(s: System, pair: EndpointMatch, acknackMessage: Message)
    requires Safe(s)
    ensures Safe(Step(s, Repair(pair, acknackMessage)))
  {
    hide Parsed, Serialized, Carries, ReceivedAreAccepted, AcceptedWerePublished, GenuineMessage, W.ReadyFor;
    var repairs := W.RepairSamplesBuilt(s.writer, pair, acknackMessage).1;
    if repairs.Some? {
      var numbers := W.MatchedAckNack(pair, acknackMessage.acknacks).value.missingSequenceNumbers;
      forall i | 0 <= i < |repairs.value|
        ensures GenuineMessage(s.writer.mapping, s.published, repairs.value[i])
      {
        FoundIsInHistory(s.writer.history, numbers[i]);
        var k :| 0 <= k < |s.writer.history| && s.writer.history[k].message == repairs.value[i];
        HistoryIsGenuine(s.writer, s.published, k);
      }
      SentAreGenuine(s.writer.mapping, s.published, repairs.value);
    }
  }

  lemma DataSize(message: Message)
    requires |message.data| == 1 && message.heartbeats == [] && message.acknacks == []
    ensures Submessages(message) == [Data(message.data[0])]
    ensures TotalSize(Submessages(message)) == SizeOf(Data(message.data[0]))
  {
    assert [Data(message.data[0])][..0] == [];
  }

  lemma SameSize(a: Message, b: Message)
    requires |a.data| == 1 && a.heartbeats == [] && a.acknacks == []
    requires |b.data| == 1 && b.heartbeats == [] && b.acknacks == []
    requires |a.data[0].serializedPayload| == |b.data[0].serializedPayload|
    ensures FitsUdpPayload(a) == FitsUdpPayload(b)
  {
    hide Submessages, TotalSize;
    DataSize(a);
    DataSize(b);
  }

  lemma ReaddressedIsGenuine(m: TopicMapping, published: seq<EventSample>, message: Message, readerId: EntityId)
    requires GenuineMessage(m, published, message)
    ensures GenuineMessage(m, published, W.Readdressed(message, readerId))
  {
    hide Encoded, Encodable, ValidMapping, FitsUdpPayload;
    var number: nat :| CarriesNumbered(m, published, message, number);
    SameSize(message, W.Readdressed(message, readerId));
    assert CarriesNumbered(m, published, W.Readdressed(message, readerId), number);
  }

  lemma ReplayKeepsSafe(s: System, pair: EndpointMatch)
    requires Safe(s)
    ensures Safe(Step(s, Replay(pair)))
  {
    hide Parsed, Serialized, Carries, ReceivedAreAccepted, AcceptedWerePublished, GenuineMessage, W.ReadyFor;
    hide ReliableProfile;
    var samples := W.HistoricalSamplesBuilt(s.writer, pair).1;
    if samples.Some? {
      forall i | 0 <= i < |samples.value|
        ensures GenuineMessage(s.writer.mapping, s.published, samples.value[i])
      {
        HistoryIsGenuine(s.writer, s.published, i);
        ReaddressedIsGenuine(
          s.writer.mapping, s.published, s.writer.history[i].message, pair.remoteEndpoint.endpointId);
      }
      SentAreGenuine(s.writer.mapping, s.published, samples.value);
    }
  }

  // ----- the reader's steps -----

  /** What the reader accepts from a genuine message is the sample published under its number. */
  lemma GenuineIsDecoded(
    m: TopicMapping, published: seq<EventSample>, message: Message, r: R.ReaderState, pair: EndpointMatch, nowMs: U64)
    requires IsAscending(r.received) && GenuineMessage(m, published, message)
    requires R.SampleAccepted(r, pair, message, nowMs).1.Some?
    ensures var sample := R.SampleAccepted(r, pair, message, nowMs).1.value;
      && 1 <= sample.sequence <= |published|
      && sample.payload == published[sample.sequence - 1].payload
      && sample.sequence !in r.received
      && R.SampleAccepted(r, pair, message, nowMs).0.received == Insert(sample.sequence, r.received)
      && R.SampleAccepted(r, pair, message, nowMs).0.samplesReceived == Increment(r.samplesReceived)
  {
    hide Encoded, Encodable, Decoded, ValidMapping, R.ReadyFor, IsAscending;
    var number: nat :| CarriesNumbered(m, published, message, number);
    EnvelopeRoundTrip(m, r.mapping, published[number - 1]);
  }

  lemma {:induction false} InsertGrows(x: U64, s: seq<U64>)
    requires IsAscending(s) && x !in s
    ensures |Insert(x, s)| == |s| + 1
    decreases |s|
  {
    if s != [] && x > s[0] {
      InsertGrows(x, s[1..]);
    }
  }

  lemma ReceivedGrows(r: R.ReaderState, accepted: seq<EventSample>, r': R.ReaderState, sample: EventSample)
    requires ReceivedAreAccepted(r, accepted) && sample.sequence !in r.received
    requires r'.received == Insert(sample.sequence, r.received) && r'.samplesReceived == Increment(r.samplesReceived)
    ensures ReceivedAreAccepted(r', accepted + [sample])
  {
    hide IsAscending;
    InsertGrows(sample.sequence, r.received);
    var longer := accepted + [sample];
    forall x <- r'.received
      ensures exists i :: 0 <= i < |longer| && longer[i].sequence == x
    {
      if x == sample.sequence {
        assert longer[|accepted|].sequence == x;
      } else {
        assert x in r.received;
        var i :| 0 <= i < |accepted| && accepted[i].sequence == x;
        assert longer[i].sequence == x;
      }
    }
  }

  lemma AcceptedGrows(published: seq<EventSample>, accepted: seq<EventSample>, r: R.ReaderState, sample: EventSample)
    requires AcceptedWerePublished(published, accepted) && ReceivedAreAccepted(r, accepted)
    requires 1 <= sample.sequence <= |published| && sample.payload == published[sample.sequence - 1].payload
    requires sample.sequence !in r.received
    ensures AcceptedWerePublished(published, accepted + [sample])
  {
    hide IsAscending;
  }

  /** A delivery that is not accepted leaves the received list alone. */
  lemma RejectedLeavesReceived(r: R.ReaderState, pair: EndpointMatch, message: Message, nowMs: U64)
    requires IsAscending(r.received) && R.SampleAccepted(r, pair, message, nowMs).1.None?
    ensures var r' := R.SampleAccepted(r, pair, message, nowMs).0;
      r'.received == r.received && r'.samplesReceived == r.samplesReceived
  {
    hide Decoded, R.ReadyFor, IsAscending;
  }

  lemma DeliverKeepsSafe(s: System, pair: EndpointMatch, datagram: seq<Byte>, nowMs: U64)
    requires Safe(s)
    ensures Safe(Step(s, Deliver(pair, datagram, nowMs)))
  {
    hide Parsed, HistoryIsTail, GenuineMessage, R.SampleAccepted, IsAscending, AcceptedWerePublished;
    if datagram in s.network && Parsed(datagram).Some? {
      var message := Parsed(datagram).value;
      var (r, sample) := R.SampleAccepted(s.reader, pair, message, nowMs);
      if sample.None? {
        assert s.accepted + [] == s.accepted;
        RejectedLeavesReceived(s.reader, pair, message, nowMs);
      } else {
        GenuineIsDecoded(s.writer.mapping, s.published, message, s.reader, pair, nowMs);
        ReceivedGrows(s.reader, s.accepted, r, sample.value);
        AcceptedGrows(s.published, s.accepted, s.reader, sample.value);
      }
    }
  }

  lemma OtherStepsKeepSafe(s: System, a: Action)
    requires Safe(s) && (a.SendHeartbeat? || a.AskForMissing? || a.Expire?)
    ensures Safe(Step(s, a))
  {
    hide Parsed, Carries, GenuineMessage, W.ReadyFor, R.ReadyFor;
  }

  // ----- runs -----

  lemma StepKeepsSafe(s: System, a: Action)
    requires Safe(s)
    ensures Safe(Step(s, a))
  {
    hide HistoryIsTail, GenuineNetwork, AcceptedWerePublished, ReceivedAreAccepted, IsAscending, Step;
    match a
    case Publish(pair, sample) => PublishKeepsSafe(s, pair, sample);
    case Repair(pair, acknackMessage) => RepairKeepsSafe(s, pair, acknackMessage);
    case Replay(pair) => ReplayKeepsSafe(s, pair);
    case Deliver(pair, datagram, nowMs) => DeliverKeepsSafe(s, pair, datagram, nowMs);
    case _ => OtherStepsKeepSafe(s, a);
  }

  /** The states of a run, from the initial one on. */
  ghost predicate IsRun(states: seq<System>, actions: seq<Action>) {
    && |states| == |actions| + 1
    && forall i :: 0 <= i < |actions| ==>
         IsAscending(states[i].reader.received) && states[i + 1] == Step(states[i], actions[i])
  }

  /**
   In every state of every run: the history is the contiguous last min(depth, published) numbers, ending
   just before the next one, each with the sample published under it; every number is accepted at most
   once and with exactly the payload published under it; and the received list is strictly ascending and
   consists of the accepted numbers.
   */
  lemma {:induction false} EveryRunIsSafe(
    writerMapping: TopicMapping, depth: nat, readerMapping: TopicMapping, states: seq<System>, actions: seq<Action>)
    requires IsRun(states, actions) && states[0] == Initial(writerMapping, depth, readerMapping)
    ensures forall i :: 0 <= i < |states| ==> Safe(states[i])
    decreases |actions|
  {
    hide Step;
    if actions == [] {
      InitialIsSafe(writerMapping, depth, readerMapping);
    } else {
      var n := |actions| - 1;
      EveryRunIsSafe(writerMapping, depth, readerMapping, states[..n + 1], actions[..n]);
      assert Safe(states[..n + 1][n]);
      StepKeepsSafe(states[n], actions[n]);
    }
  }

  lemma InitialIsSafe(writerMapping: TopicMapping, depth: nat, readerMapping: TopicMapping)
    ensures Safe(Initial(writerMapping, depth, readerMapping))
  {
  }

  // ----- the reader's own limits -----

  predicate OneRecordEach(writers: seq<R.WriterRecord>) {
    forall i, j :: 0 <= i < j < |writers| ==>
      writers[i].participantGuidPrefix != writers[j].participantGuidPrefix
      || writers[i].writerId != writers[j].writerId
  }

  /** The limits of the profile are kept, no writer has two records, and a record's last number was received. */
  predicate WithinLimits(r: R.ReaderState) {
    var qos := r.mapping.qos;
    && (qos.maxCachedSamples != 0 ==> |r.received| <= qos.maxCachedSamples)
    && (qos.maxRemoteWriters != 0 ==> |r.writers| <= qos.maxRemoteWriters)
    && OneRecordEach(r.writers)
    && forall w <- r.writers :: w.lastSequenceNumber in r.received
  }

  lemma {:induction false} NotFoundIsNew(writers: seq<R.WriterRecord>, pair: EndpointMatch)
    requires R.FindWriterState(writers, pair) == |writers|
    ensures forall i :: 0 <= i < |writers| ==> !R.IsRecordOf(pair, writers[i])
    decreases |writers|
  {
    if writers != [] {
      NotFoundIsNew(writers[1..], pair);
      assert forall i :: 0 < i < |writers| ==> writers[i] == writers[1..][i - 1];
    }
  }

  lemma SeenKeepsRecords(
    writers: seq<R.WriterRecord>, pair: EndpointMatch, number: U64, nowMs: U64, before: seq<U64>, after: seq<U64>)
    requires OneRecordEach(writers) && forall w <- writers :: w.lastSequenceNumber in before
    requires number in after && forall x <- before :: x in after
    ensures var seen := R.Seen(writers, R.FindWriterState(writers, pair), pair, number, nowMs);
      OneRecordEach(seen) && forall w <- seen :: w.lastSequenceNumber in after
  {
    hide R.FindWriterState;
    var i := R.FindWriterState(writers, pair);
    if i == |writers| {
      NotFoundIsNew(writers, pair);
    } else {
      assert writers[i] in writers;
    }
  }

  lemma AcceptKeepsLimits(r: R.ReaderState, pair: EndpointMatch, message: Message, nowMs: U64)
    requires IsAscending(r.received) && WithinLimits(r)
    ensures WithinLimits(R.SampleAccepted(r, pair, message, nowMs).0)
  {
    hide R.ReadyFor, R.FindWriterState, R.Seen, Decoded, IsAscending, OneRecordEach;
    var data := R.MatchedData(pair, message.data);
    if R.SampleAccepted(r, pair, message, nowMs).1.Some? {
      var number := data.value.writerSequenceNumber;
      InsertGrows(number, r.received);
      SeenKeepsRecords(r.writers, pair, number, nowMs, r.received, Insert(number, r.received));
      SeenGrows(r.writers, R.FindWriterState(r.writers, pair), pair, number, nowMs);
    }
  }

  lemma SeenGrows(writers: seq<R.WriterRecord>, i: nat, pair: EndpointMatch, number: U64, nowMs: U64)
    requires i <= |writers|
    ensures |R.Seen(writers, i, pair, number, nowMs)| == if i == |writers| then |writers| + 1 else |writers|
  {
  }

  /** Exactly the writers within their lease are kept, in their order. */
  lemma {:induction false} ExpiryIsExact(writers: seq<R.WriterRecord>, nowMs: U64, leaseMs: U64)
    ensures var kept := R.Unexpired(writers, nowMs, leaseMs);
      && (forall w :: w in kept <==> w in writers && !R.ExceedsDuration(nowMs, w.lastSeenMs, leaseMs))
      && (OneRecordEach(writers) ==> OneRecordEach(kept))
    decreases |writers|
  {
    hide R.ExceedsDuration;
    if writers != [] {
      ExpiryIsExact(writers[1..], nowMs, leaseMs);
      assert writers == [writers[0]] + writers[1..];
      FirstIsDistinct(writers, R.Unexpired(writers[1..], nowMs, leaseMs));
    }
  }

  lemma FirstIsDistinct(writers: seq<R.WriterRecord>, kept: seq<R.WriterRecord>)
    requires writers != [] && forall w <- kept :: w in writers[1..]
    ensures OneRecordEach(writers) ==> OneRecordEach(writers[1..])
    ensures OneRecordEach(writers) && OneRecordEach(kept) ==> OneRecordEach([writers[0]] + kept)
  {
    if OneRecordEach(writers) && OneRecordEach(kept) {
      forall j | 0 <= j < |kept|
        ensures kept[j].participantGuidPrefix != writers[0].participantGuidPrefix
          || kept[j].writerId != writers[0].writerId
      {
        assert kept[j] in writers[1..];
        var k :| 0 <= k < |writers[1..]| && writers[1..][k] == kept[j];
        assert writers[k + 1] == kept[j];
      }
    }
  }

  lemma StepKeepsLimits(s: System, a: Action)
    requires IsAscending(s.reader.received) && WithinLimits(s.reader)
    ensures WithinLimits(Step(s, a).reader)
  {
    hide R.ReadyFor, R.NotReceived, R.Unexpired, R.SampleAccepted, IsAscending, OneRecordEach, Parsed;
    match a
    case Deliver(pair, datagram, nowMs) =>
      if datagram in s.network && Parsed(datagram).Some? {
        AcceptKeepsLimits(s.reader, pair, Parsed(datagram).value, nowMs);
      }
    case Expire(nowMs) =>
      ExpiryIsExact(s.reader.writers, nowMs, s.reader.mapping.qos.livelinessLeaseDurationMs);
    case _ =>
  }

  /** In every state of every run. */
  lemma {:induction false} EveryRunKeepsLimits(
    writerMapping: TopicMapping, depth: nat, readerMapping: TopicMapping, states: seq<System>, actions: seq<Action>)
    requires IsRun(states, actions) && states[0] == Initial(writerMapping, depth, readerMapping)
    ensures forall i :: 0 <= i < |states| ==> WithinLimits(states[i].reader)
    decreases |actions|
  {
    hide Step, WithinLimits;
    if actions == [] {
      InitialWithinLimits(readerMapping);
    } else {
      var n := |actions| - 1;
      EveryRunKeepsLimits(writerMapping, depth, readerMapping, states[..n + 1], actions[..n]);
      assert WithinLimits(states[..n + 1][n].reader);
      StepKeepsLimits(states[n], actions[n]);
    }
  }

  lemma InitialWithinLimits(m: TopicMapping)
    ensures WithinLimits(R.NewReader(m))
  {
  }
}
