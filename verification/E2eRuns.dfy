/** What a receiver does over whole runs, and the faults a sender can inject. */
module E2eRuns {
  import opened Bytes
  import opened Modular
  import opened Crc32
  import opened E2eFrame
  import opened E2eProtection
  import opened E2eDetection

  // ----- single frames -----

  /** An untouched frame in time is accepted by a receiver that has seen nothing. */
  lemma UntouchedFrameAccepted(
    c: ProfileConfig, payload: seq<Byte>, counter: U32, timestampMs: U64, nowMs: U64, r: Receiver)
    requires ValidConfig(c) && |payload| < U32_MODULUS && counter <= MaxCounterValue(c.counterBits)
    requires InTime(c, timestampMs, nowMs) && !r.initialized
    ensures var (v, r') := Checked(c, SentFrame(c, payload, counter, timestampMs), nowMs, r);
      v.status == Ok && v.accepted && v.payload == payload && r' == Receiver(true, counter, timestampMs, 0)
  {
    hide SentFrame, FrameVerdict;
    SentFramePasses(c, payload, counter, timestampMs, nowMs);
  }

  /** A corrupted CRC is a CRC mismatch to every receiver. */
  lemma CorruptCrcDetected(
    c: ProfileConfig, payload: seq<Byte>, counter: U32, timestampMs: U64, nowMs: U64, r: Receiver)
    requires ValidConfig(c) && |payload| < U32_MODULUS && counter <= MaxCounterValue(c.counterBits)
    ensures var frame := Protected(c, payload, counter, timestampMs, CorruptCrc).value.frame;
      Checked(c, frame, nowMs, r).0.status == CrcMismatch && Checked(c, frame, nowMs, r).1 == r
  {
    hide Checksum, CrcMaterial, Serialized, Parsed, GetU32Be, PutU32Be;
    var h := Sealed(ProtectedHeader(c, payload, counter, timestampMs, CorruptCrc), payload);
    var sent := Serialized(h, payload);
    var frame := sent[31 := FlipLowBit(sent[31])];
    FrameStartsWithHeader(h, payload);
    HeaderIsDecoded(sent, h);
    var wrong := h.(crc32 := GetU32Be(frame, 28));
    WriteU32Be(frame, 28);
    WriteU32Be(sent, 28);
    FlippedOctetDiffers(sent);
    SharedHeader(sent, frame, h);
    ParseHeaderAt(frame, wrong);
    MaterialIgnoresCrc(h, payload);
    assert frame[32..] == payload;
  }

  lemma FlippedOctetDiffers(sent: seq<Byte>)
    requires HEADER_SIZE <= |sent|
    ensures sent[31 := FlipLowBit(sent[31])][28..32] != sent[28..32]
  {
    assert sent[31 := FlipLowBit(sent[31])][28..32][3] == FlipLowBit(sent[31]);
    assert sent[28..32][3] == sent[31];
  }

  /** A frame that shares the first 28 octets shares the header up to the CRC. */
  lemma SharedHeader(sent: seq<Byte>, frame: seq<Byte>, h: FrameHeader)
    requires HeaderAt(sent, h) && HEADER_SIZE <= |frame|
    requires forall k :: 0 <= k < 28 ==> frame[k] == sent[k]
    ensures HeaderAt(frame, h.(crc32 := GetU32Be(frame, 28)))
  {
    hide GetU32Be, PutU32Be, PutU64Be;
    WriteU32Be(frame, 28);
    assert frame[..4] == sent[..4];
    assert frame[8..12] == sent[8..12];
    assert frame[12..16] == sent[12..16];
    assert frame[16..24] == sent[16..24];
    assert frame[24..28] == sent[24..28];
  }

  /** A wrong data id is recognised as such by every receiver. */
  lemma WrongDataIdDetected(
    c: ProfileConfig, payload: seq<Byte>, counter: U32, timestampMs: U64, nowMs: U64, r: Receiver)
    requires ValidConfig(c) && |payload| < U32_MODULUS && counter <= MaxCounterValue(c.counterBits)
    ensures var frame := Protected(c, payload, counter, timestampMs, FaultInjectionMode.WrongDataId).value.frame;
      Checked(c, frame, nowMs, r).0.status == CheckStatus.WrongDataId && Checked(c, frame, nowMs, r).1 == r
  {
    hide Checksum, CrcMaterial, Serialized, Parsed;
    ParseSerialized(
      Sealed(ProtectedHeader(c, payload, counter, timestampMs, FaultInjectionMode.WrongDataId), payload), payload);
  }

  /** Truncation is detected exactly when there is a payload octet to cut off. */
  lemma TruncationDetected(
    c: ProfileConfig, payload: seq<Byte>, counter: U32, timestampMs: U64, nowMs: U64)
    requires ValidConfig(c) && |payload| < U32_MODULUS && counter <= MaxCounterValue(c.counterBits)
    requires InTime(c, timestampMs, nowMs)
    ensures var frame := Protected(c, payload, counter, timestampMs, TruncatePayload).value.frame;
      FrameVerdict(c, frame, nowMs).status == if payload == [] then Ok else Malformed
  {
    hide Checksum, CrcMaterial, Serialized, Parsed;
    var frame := Protected(c, payload, counter, timestampMs, TruncatePayload).value.frame;
    if payload == [] {
      SentFramePasses(c, payload, counter, timestampMs, nowMs);
    } else {
      var h := Sealed(ProtectedHeader(c, payload, counter, timestampMs, TruncatePayload), payload);
      FrameStartsWithHeader(h, payload);
      SharedHeader(Serialized(h, payload), frame, h);
      WrongLengthIsMalformed(frame, h.(crc32 := GetU32Be(frame, 28)));
    }
  }

  lemma WrongLengthIsMalformed(frame: seq<Byte>, h: FrameHeader)
    requires HeaderAt(frame, h) && |frame| != HEADER_SIZE + h.payloadLength
    ensures Parsed(frame).status == Malformed
  {
    hide GetU16Be, GetU32Be, GetU64Be, PutU16Be, PutU32Be, PutU64Be;
    HeaderIsDecoded(frame, h);
    ReservedIsZero(frame);
  }

  /** A stale timestamp times out exactly when the receiver's clock has passed both the timeout and the sending time. */
  lemma StaleTimestampDetected(c: ProfileConfig, payload: seq<Byte>, counter: U32, timestampMs: U64, nowMs: U64)
    requires ValidConfig(c) && |payload| < U32_MODULUS && counter <= MaxCounterValue(c.counterBits)
    ensures var frame := Protected(c, payload, counter, timestampMs, StaleTimestamp).value.frame;
      FrameVerdict(c, frame, nowMs).status == if nowMs > c.timeoutMs && nowMs >= timestampMs then Timeout else Ok
  {
    hide Checksum, CrcMaterial, Serialized, Parsed;
    var h := ProtectedHeader(c, payload, counter, timestampMs, StaleTimestamp);
    var sealed := Sealed(h, payload);
    ParseSerialized(sealed, payload);
    MaterialIgnoresCrc(sealed, payload);
  }

  // ----- counters -----

  /** `previous` advanced `n` times. */
  function Advanced(c: ProfileConfig, previous: U32, n: nat): U32
    requires ValidConfig(c) && previous <= MaxCounterValue(c.counterBits)
    ensures Advanced(c, previous, n) <= MaxCounterValue(c.counterBits)
  {
    if n == 0 then previous else NextCounter(c, Advanced(c, previous, n - 1)).value
  }

  lemma {:induction false} AdvancedIsModular(c: ProfileConfig, previous: U32, n: nat)
    requires ValidConfig(c) && previous <= MaxCounterValue(c.counterBits)
    ensures Advanced(c, previous, n) == (previous + n) % CounterModulus(c.counterBits)
  {
    if n > 0 {
      AdvancedIsModular(c, previous, n - 1);
      AddToRemainder(previous + n - 1, 1, CounterModulus(c.counterBits));
    }
  }

  /** The receiver's distance to a counter `n` steps ahead is `n` modulo the counter range. */
  lemma DeltaOfAdvanced(c: ProfileConfig, previous: U32, n: nat)
    requires ValidConfig(c) && previous <= MaxCounterValue(c.counterBits)
    ensures CounterDelta(c, previous, Advanced(c, previous, n)) == n % CounterModulus(c.counterBits)
  {
    AdvancedIsModular(c, previous, n);
    StepsAround(previous, n, CounterModulus(c.counterBits));
  }

  /** A repeated counter is recognised by the receiver that accepted the previous frame. */
  lemma RepeatCounterDetected(
    c: ProfileConfig, payload: seq<Byte>, counter: U32, timestampMs: U64, nowMs: U64, r: Receiver)
    requires ValidConfig(c) && |payload| < U32_MODULUS && counter <= MaxCounterValue(c.counterBits)
    requires InTime(c, timestampMs, nowMs)
    requires r.initialized && NextCounter(c, r.lastCounter) == Some(counter)
    ensures var frame := Protected(c, payload, counter, timestampMs, RepeatCounter).value.frame;
      Checked(c, frame, nowMs, r).0.status == Repeated
  {
    hide FrameVerdict, CounterDelta, Checksum, CrcMaterial, Serialized;
    PreviousCounter(c, r.lastCounter, counter);
    SentFramePasses(c, payload, r.lastCounter, timestampMs, nowMs);
  }

  lemma PreviousCounter(c: ProfileConfig, previous: U32, counter: U32)
    requires ValidConfig(c) && NextCounter(c, previous) == Some(counter)
    ensures previous == if counter == 0 then MaxCounterValue(c.counterBits) else counter - 1
  {
    StepsAround(previous, 1, CounterModulus(c.counterBits));
  }

  // ----- one step of a receiver -----

  /** A rejected frame changes nothing but the repetition count; an accepted new one advances the counter. */
  lemma ReceiverStep(c: ProfileConfig, frame: seq<Byte>, nowMs: U64, r: Receiver)
    requires ValidConfig(c)
    ensures var (v, r') := Checked(c, frame, nowMs, r);
      && (v.status != Ok ==> r' == r.(repetitionCount := r'.repetitionCount))
      && (v.status != Ok && v.status != Repeated ==> r' == r && !v.accepted)
      && (v.status == Repeated ==> r.initialized && r.repetitionCount <= r'.repetitionCount)
      && (v.status == Ok ==> v.accepted && r'.initialized && r'.repetitionCount == 0)
      && (v.status == Ok ==> r'.lastCounter == v.header.counter <= MaxCounterValue(c.counterBits))
      && (v.status == Ok && r.initialized ==>
            1 <= CounterDelta(c, r.lastCounter, v.header.counter) <= c.maxDeltaCounter)
  {
    hide Parsed, CrcMaterial, Checksum, CounterDelta;
  }

  /** What is accepted, as new or as repeated, carries the payload of a frame some sender emitted in time. */
  lemma AcceptedWasSent(c: ProfileConfig, frame: seq<Byte>, nowMs: U64, r: Receiver)
    requires ValidConfig(c) && Checked(c, frame, nowMs, r).0.accepted
    ensures var v := Checked(c, frame, nowMs, r).0;
      && |v.payload| < U32_MODULUS && v.header.counter <= MaxCounterValue(c.counterBits)
      && InTime(c, v.header.timestampMs, nowMs)
      && frame == SentFrame(c, v.payload, v.header.counter, v.header.timestampMs)
  {
    hide SentFrame, Parsed, CrcMaterial, Checksum, CounterDelta;
    PassingFrameWasSent(c, frame, nowMs);
  }

  // ----- runs -----

  datatype Arrival = Arrival(frame: seq<Byte>, nowMs: U64)

  datatype Outcome = Outcome(verdicts: seq<CheckedPayload>, receiver: Receiver)

  /** Any sequence of arriving frames, checked one after the other. */
  function Received(c: ProfileConfig, r: Receiver, arrivals: seq<Arrival>): (o: Outcome)
    requires ValidConfig(c)
    ensures |o.verdicts| == |arrivals|
    decreases |arrivals|
  {
    if arrivals == [] then Outcome([], r)
    else
      var (v, r') := Checked(c, arrivals[0].frame, arrivals[0].nowMs, r);
      var rest := Received(c, r', arrivals[1..]);
      Outcome([v] + rest.verdicts, rest.receiver)
  }

  /** The counters of the frames accepted as new, oldest first. */
  function NewCounters(verdicts: seq<CheckedPayload>): seq<U32> {
    if verdicts == [] then []
    else (if verdicts[0].status == Ok then [verdicts[0].header.counter] else []) + NewCounters(verdicts[1..])
  }

  function AcceptedCount(verdicts: seq<CheckedPayload>): nat {
    if verdicts == [] then 0 else (if verdicts[0].accepted then 1 else 0) + AcceptedCount(verdicts[1..])
  }

  /** Each counter is 1 to `maxDeltaCounter` steps ahead of the one before, round the counter range. */
  predicate StepsForward(c: ProfileConfig, counters: seq<U32>)
    requires ValidConfig(c)
  {
    forall i :: 0 < i < |counters| ==> 1 <= CounterDelta(c, counters[i - 1], counters[i]) <= c.maxDeltaCounter
  }

  /** The counter a receiver remembers, if any, followed by those it then accepts as new. */
  function Trail(r: Receiver, verdicts: seq<CheckedPayload>): seq<U32> {
    (if r.initialized then [r.lastCounter] else []) + NewCounters(verdicts)
  }

  /**
   Over any run, whatever frames arrive, the counters accepted as new advance by 1 to
   `maxDeltaCounter` each time, and the receiver ends on the last of them.
   */
  lemma {:induction false} CountersAdvance(c: ProfileConfig, r: Receiver, arrivals: seq<Arrival>)
    requires ValidConfig(c)
    ensures var o := Received(c, r, arrivals);
      var trail := Trail(r, o.verdicts);
      && StepsForward(c, trail)
      && o.receiver.initialized == (trail != [])
      && (trail != [] ==> o.receiver.lastCounter == trail[|trail| - 1])
    decreases |arrivals|
  {
    hide Checked, CounterDelta, StepsForward;
    if arrivals == [] {
      StepsForwardOfOne(c, Trail(r, []));
    } else {
      ReceiverStep(c, arrivals[0].frame, arrivals[0].nowMs, r);
      var (v, r') := Checked(c, arrivals[0].frame, arrivals[0].nowMs, r);
      CountersAdvance(c, r', arrivals[1..]);
      assert Received(c, r, arrivals).verdicts[1..] == Received(c, r', arrivals[1..]).verdicts;
      var trail := Trail(r, Received(c, r, arrivals).verdicts);
      var rest := Trail(r', Received(c, r', arrivals[1..]).verdicts);
      if v.status == Ok {
        var before := if r.initialized then [r.lastCounter] else [];
        assert trail == before + rest;
        StepsForwardFrom(c, before, rest);
      } else {
        assert trail == rest;
      }
    }
  }

  lemma StepsForwardOfOne(c: ProfileConfig, counters: seq<U32>)
    requires ValidConfig(c) && |counters| <= 1
    ensures StepsForward(c, counters)
  {
  }

  lemma StepsForwardFrom(c: ProfileConfig, before: seq<U32>, counters: seq<U32>)
    requires ValidConfig(c) && |before| <= 1 && counters != [] && StepsForward(c, counters)
    requires before != [] ==> 1 <= CounterDelta(c, before[0], counters[0]) <= c.maxDeltaCounter
    ensures StepsForward(c, before + counters)
  {
    hide CounterDelta;
    forall i | 0 < i < |before + counters|
      ensures 1 <= CounterDelta(c, (before + counters)[i - 1], (before + counters)[i]) <= c.maxDeltaCounter
    {
      if i > |before| {
        assert (before + counters)[i] == counters[i - |before|];
        assert (before + counters)[i - 1] == counters[i - |before| - 1];
      }
    }
  }

  /** A repetition is counted, up to saturation, and accepted while the count is within the limit. */
  lemma RepeatStep(c: ProfileConfig, frame: seq<Byte>, nowMs: U64, r: Receiver)
    requires ValidConfig(c) && Checked(c, frame, nowMs, r).0.status == Repeated
    ensures var (v, r') := Checked(c, frame, nowMs, r);
      && r'.repetitionCount == (if r.repetitionCount == 0xFFFF_FFFF then 0xFFFF_FFFF else r.repetitionCount + 1)
      && v.accepted == (r'.repetitionCount <= c.maxRepetitions)
  {
    hide Parsed, CrcMaterial, Checksum, CounterDelta;
  }

  /**
   As long as nothing new is accepted, at most `maxRepetitions` frames are accepted in all, less
   the repetitions already counted. Only a limit of 2^32 - 1 escapes: the count saturates there.
   */
  lemma {:induction false} RepeatsAreBounded(c: ProfileConfig, r: Receiver, arrivals: seq<Arrival>)
    requires ValidConfig(c) && c.maxRepetitions < 0xFFFF_FFFF
    requires NewCounters(Received(c, r, arrivals).verdicts) == []
    ensures AcceptedCount(Received(c, r, arrivals).verdicts)
      <= if r.repetitionCount <= c.maxRepetitions then c.maxRepetitions - r.repetitionCount else 0
    decreases |arrivals|
  {
    hide Checked;
    if arrivals != [] {
      ReceiverStep(c, arrivals[0].frame, arrivals[0].nowMs, r);
      var (v, r') := Checked(c, arrivals[0].frame, arrivals[0].nowMs, r);
      var verdicts := Received(c, r, arrivals).verdicts;
      assert verdicts[0] == v && verdicts[1..] == Received(c, r', arrivals[1..]).verdicts;
      if v.status == Repeated {
        RepeatStep(c, arrivals[0].frame, arrivals[0].nowMs, r);
      }
      RepeatsAreBounded(c, r', arrivals[1..]);
    }
  }

  /** With the limit at 2^32 - 1 the saturated count never exceeds it, so every repetition of a frame is accepted. */
  lemma {:induction false} UnlimitedRepeats(c: ProfileConfig, frame: seq<Byte>, nowMs: U64, r: Receiver, n: nat)
    requires ValidConfig(c) && c.maxRepetitions == 0xFFFF_FFFF
    requires Checked(c, frame, nowMs, r).0.status == Repeated
    ensures var verdicts := Received(c, r, Repetitions(frame, nowMs, n)).verdicts;
      AcceptedCount(verdicts) == n && NewCounters(verdicts) == []
    decreases n
  {
    hide Checked;
    if n > 0 {
      var (v, r') := Checked(c, frame, nowMs, r);
      RepeatStep(c, frame, nowMs, r);
      RepeatedAgain(c, frame, nowMs, r);
      UnlimitedRepeats(c, frame, nowMs, r', n - 1);
      var arrivals := Repetitions(frame, nowMs, n);
      assert arrivals[1..] == Repetitions(frame, nowMs, n - 1);
      var verdicts := Received(c, r, arrivals).verdicts;
      assert verdicts[0] == v && verdicts[1..] == Received(c, r', arrivals[1..]).verdicts;
    }
  }

  function Repetitions(frame: seq<Byte>, nowMs: U64, n: nat): seq<Arrival> {
    seq(n, _ => Arrival(frame, nowMs))
  }

  lemma RepeatedAgain(c: ProfileConfig, frame: seq<Byte>, nowMs: U64, r: Receiver)
    requires ValidConfig(c) && Checked(c, frame, nowMs, r).0.status == Repeated
    ensures Checked(c, frame, nowMs, Checked(c, frame, nowMs, r).1).0.status == Repeated
  {
    hide Parsed, CrcMaterial, Checksum, CounterDelta;
  }

  /** No run accepts more frames between two new ones than the configured limit. */
  ghost predicate LimitHolds(c: ProfileConfig)
    requires ValidConfig(c)
  {
    forall r: Receiver, arrivals: seq<Arrival> ::
      NewCounters(Received(c, r, arrivals).verdicts) == [] ==>
        AcceptedCount(Received(c, r, arrivals).verdicts) <= c.maxRepetitions
  }

  /** The limit holds over all runs exactly when it lies below 2^32 - 1; at 2^32 - 1, 2^32 repetitions are accepted. */
  lemma LimitHoldsBelowSaturation(c: ProfileConfig)
    requires ValidConfig(c)
    ensures LimitHolds(c) <==> c.maxRepetitions < 0xFFFF_FFFF
  {
    hide Received, Checked, NewCounters, AcceptedCount, SentFrame, InTime;
    if c.maxRepetitions < 0xFFFF_FFFF {
      forall r: Receiver, arrivals: seq<Arrival> | NewCounters(Received(c, r, arrivals).verdicts) == []
        ensures AcceptedCount(Received(c, r, arrivals).verdicts) <= c.maxRepetitions
      {
        RepeatsAreBounded(c, r, arrivals);
      }
    } else {
      var r := Receiver(true, 0, 0, 0);
      FirstFrameRepeats(c);
      UnlimitedRepeats(c, SentFrame(c, [], 0, 0), 0, r, U32_MODULUS);
      var arrivals := Repetitions(SentFrame(c, [], 0, 0), 0, U32_MODULUS);
      assert AcceptedCount(Received(c, r, arrivals).verdicts) == U32_MODULUS;
    }
  }

  lemma FirstFrameRepeats(c: ProfileConfig)
    requires ValidConfig(c)
    ensures Checked(c, SentFrame(c, [], 0, 0), 0, Receiver(true, 0, 0, 0)).0.status == Repeated
  {
    hide SentFrame, FrameVerdict, CounterDelta;
    SentFramePasses(c, [], 0, 0, 0);
  }

  // ----- a sender that counts with NextCounter over a lossy channel -----

  /** The fate of the first frame to get through after `lost` lost ones. */
  lemma AfterLosses(
    c: ProfileConfig, payload: seq<Byte>, lost: nat, timestampMs: U64, nowMs: U64, r: Receiver)
    requires ValidConfig(c) && |payload| < U32_MODULUS && InTime(c, timestampMs, nowMs)
    requires r.initialized && r.lastCounter <= MaxCounterValue(c.counterBits)
    ensures var frame := SentFrame(c, payload, Advanced(c, r.lastCounter, lost + 1), timestampMs);
      var v := Checked(c, frame, nowMs, r).0;
      var distance := (lost + 1) % CounterModulus(c.counterBits);
      && (v.status == Ok <==> 1 <= distance <= c.maxDeltaCounter)
      && (v.status == Repeated <==> distance == 0)
      && (v.status == WrongSequence <==> distance > c.maxDeltaCounter)
  {
    hide SentFrame, FrameVerdict, Advanced;
    var counter := Advanced(c, r.lastCounter, lost + 1);
    SentFramePasses(c, payload, counter, timestampMs, nowMs);
    DeltaOfAdvanced(c, r.lastCounter, lost + 1);
    AdvancedIsModular(c, r.lastCounter, lost + 1);
    StepsAround(r.lastCounter, lost + 1, CounterModulus(c.counterBits));
  }

  /** A frame that gets through: how many steps the sender's counter moved since the last one that did. */
  datatype Delivery = Delivery(steps: nat, payload: seq<Byte>, timestampMs: U64, nowMs: U64)

  predicate Deliverable(c: ProfileConfig, d: Delivery)
    requires ValidConfig(c)
  {
    1 <= d.steps <= c.maxDeltaCounter && |d.payload| < U32_MODULUS && InTime(c, d.timestampMs, d.nowMs)
  }

  function NextArrival(c: ProfileConfig, counter: U32, d: Delivery): Arrival
    requires ValidConfig(c) && counter <= MaxCounterValue(c.counterBits) && Deliverable(c, d)
  {
    Arrival(SentFrame(c, d.payload, Advanced(c, counter, d.steps), d.timestampMs), d.nowMs)
  }

  function Arrivals(c: ProfileConfig, counter: U32, deliveries: seq<Delivery>): (arrivals: seq<Arrival>)
    requires ValidConfig(c) && counter <= MaxCounterValue(c.counterBits)
    requires forall i :: 0 <= i < |deliveries| ==> Deliverable(c, deliveries[i])
    ensures |arrivals| == |deliveries|
    decreases |deliveries|
  {
    if deliveries == [] then []
    else
      [NextArrival(c, counter, deliveries[0])]
      + Arrivals(c, Advanced(c, counter, deliveries[0].steps), deliveries[1..])
  }

  /**
   As long as fewer than `maxDeltaCounter` frames are lost in a row and frames arrive in time,
   every frame that gets through is accepted as new, with the payload that was sent, for ever.
   */
  lemma {:induction false} LossyChannelDelivers(c: ProfileConfig, r: Receiver, deliveries: seq<Delivery>)
    requires ValidConfig(c)
    requires r.initialized && r.lastCounter <= MaxCounterValue(c.counterBits)
    requires forall i :: 0 <= i < |deliveries| ==> Deliverable(c, deliveries[i])
    ensures var verdicts := Received(c, r, Arrivals(c, r.lastCounter, deliveries)).verdicts;
      && |verdicts| == |deliveries|
      && forall i :: 0 <= i < |deliveries| ==>
           verdicts[i].status == Ok && verdicts[i].accepted && verdicts[i].payload == deliveries[i].payload
    decreases |deliveries|
  {
    hide SentFrame, Checked, Advanced, InTime;
    if deliveries != [] {
      var d := deliveries[0];
      assert Deliverable(c, d);
      var counter := Advanced(c, r.lastCounter, d.steps);
      DeliveryAccepted(c, d, r);
      var (v, r') := Checked(c, SentFrame(c, d.payload, counter, d.timestampMs), d.nowMs, r);
      LossyChannelDelivers(c, r', deliveries[1..]);
      var arrivals := Arrivals(c, r.lastCounter, deliveries);
      assert arrivals[1..] == Arrivals(c, counter, deliveries[1..]);
      var verdicts := Received(c, r, arrivals).verdicts;
      assert verdicts[0] == v && verdicts[1..] == Received(c, r', arrivals[1..]).verdicts;
    }
  }

  lemma DeliveryAccepted(c: ProfileConfig, d: Delivery, r: Receiver)
    requires ValidConfig(c) && Deliverable(c, d)
    requires r.initialized && r.lastCounter <= MaxCounterValue(c.counterBits)
    ensures var counter := Advanced(c, r.lastCounter, d.steps);
      var (v, r') := Checked(c, SentFrame(c, d.payload, counter, d.timestampMs), d.nowMs, r);
      v.status == Ok && v.accepted && v.payload == d.payload && r'.initialized && r'.lastCounter == counter
  {
    hide SentFrame, FrameVerdict, Advanced, InTime, CounterDelta, NextCounter;
    var counter := Advanced(c, r.lastCounter, d.steps);
    SentFramePasses(c, d.payload, counter, d.timestampMs, d.nowMs);
    RemainderIs(d.steps, CounterModulus(c.counterBits), 0, d.steps);
    AfterLosses(c, d.payload, d.steps - 1, d.timestampMs, d.nowMs, r);
    var v := Checked(c, SentFrame(c, d.payload, counter, d.timestampMs), d.nowMs, r).0;
    assert v.status == Ok;
  }
}
