/** Which verdict each frame gets, from its header, its payload and what the receiver remembers. */
module E2eVerdicts {
  import opened Bytes
  import opened Modular
  import opened Crc32
  import opened E2eFrame
  import opened E2eProtection
  import opened E2eDetection

  // ----- configurations and counters -----

  /** How many values a counter of that many bits has. */
  function CounterRange(bits: Byte): nat {
    if bits == 4 then 16 else if bits == 8 then 256 else if bits == 16 then 65536 else 4294967296
  }

  /** A counter has 4, 8, 16 or 32 bits and counts to the end of its range; nothing else in a configuration is zero. */
  lemma ConfigIsFit(c: ProfileConfig)
    ensures IsSupportedCounterWidth(c.counterBits) <==> c.counterBits in {4, 8, 16, 32}
    ensures c.counterBits in {4, 8, 16, 32} ==> CounterModulus(c.counterBits) == CounterRange(c.counterBits)
    ensures ValidConfig(c) <==>
      && c.counterBits in {4, 8, 16, 32} && c.dataId > 0 && c.timeoutMs > 0
      && 1 <= c.maxDeltaCounter < CounterRange(c.counterBits)
      && |c.trace.serviceInstance| >= 1 && |c.trace.eventName| >= 1
      && |c.trace.sourceModelPath| >= 1 && |c.trace.sourceModelPointer| >= 1
  {
  }

  /** The next counter is one more, and zero after the last. */
  lemma NextIsExact(c: ProfileConfig, previous: U32)
    ensures NextCounter(c, previous) ==
      if !ValidConfig(c) || previous >= CounterRange(c.counterBits) then None
      else if previous == CounterRange(c.counterBits) - 1 then Some(0) else Some(previous + 1)
  {
  }

  /** How many steps forward lead from one counter to another. */
  lemma DeltaIsExact(c: ProfileConfig, previous: U32, current: U32)
    requires ValidConfig(c) && previous < CounterRange(c.counterBits) && current < CounterRange(c.counterBits)
    ensures CounterDelta(c, previous, current) < CounterRange(c.counterBits)
    ensures (previous as nat + CounterDelta(c, previous, current) as nat) % CounterRange(c.counterBits) == current
  {
    var range, delta := CounterRange(c.counterBits), CounterDelta(c, previous, current);
    if current < previous {
      assert delta == range - previous as nat + current as nat;
      assert previous as nat + delta as nat == current as nat + range;
      ConfigIsFit(c);
    }
  }

  // ----- sending -----

  /** A frame is built exactly for a fit configuration, a payload whose length fits, and a counter in range. */
  lemma ProtectionIsExact(
    c: ProfileConfig, payload: seq<Byte>, counter: U32, timestampMs: U64, fault: FaultInjectionMode)
    ensures var r := Protected(c, payload, counter, timestampMs, fault);
      && (r.Some? <==> ValidConfig(c) && |payload| < 0x1_0000_0000 && counter < CounterRange(c.counterBits))
      && (r.Some? && fault == NoFault ==>
            && r.value.status == Ok && r.value.header.payloadLength == |payload|
            && r.value.frame == Serialized(r.value.header, payload)
            && r.value.header == FrameHeader(
                 c.profile, c.dataId, counter, timestampMs, |payload|, Checksum(CrcMaterial(r.value.header, payload))))
      && (r.Some? && fault != NoFault ==> r.value.status == FaultInjected)
  {
    hide Serialized, Checksum, CrcMaterial;
    if Protected(c, payload, counter, timestampMs, fault).Some? {
      MaterialIgnoresCrc(Protected(c, payload, counter, timestampMs, fault).value.header, payload);
    }
  }

  // ----- checking -----

  /** A frame can be taken apart exactly if it is the printed form of some header and payload. */
  lemma WellFormedIsPrinted(frame: seq<Byte>)
    ensures Parsed(frame).status == Ok <==>
      exists h: FrameHeader, payload :: h.payloadLength == |payload| && frame == Serialized(h, payload)
  {
    hide Serialized, Parsed;
    if Parsed(frame).status == Ok {
      SerializeParsed(frame);
    }
    if h: FrameHeader, payload :| h.payloadLength == |payload| && frame == Serialized(h, payload) {
      ParseSerialized(h, payload);
    }
  }

  /** The CRC field is that of the frame it stands in. */
  predicate CrcFits(h: FrameHeader, payload: seq<Byte>) {
    h.crc32 == Checksum(CrcMaterial(h, payload))
  }

  /** The frame is the receiver's own, whole, and in time. */
  predicate Sound(c: ProfileConfig, h: FrameHeader, payload: seq<Byte>, nowMs: U64)
    requires ValidConfig(c)
  {
    && h.profile == c.profile && h.dataId == c.dataId && h.counter < CounterRange(c.counterBits)
    && CrcFits(h, payload) && nowMs - h.timestampMs <= c.timeoutMs
  }

  /** What an unsound frame is refused for: the first of these. */
  function Fault(c: ProfileConfig, h: FrameHeader, payload: seq<Byte>): CheckStatus
    requires ValidConfig(c)
  {
    if h.profile != c.profile then WrongProfile
    else if h.dataId != c.dataId then CheckStatus.WrongDataId
    else if h.counter >= CounterRange(c.counterBits) then WrongSequence
    else if !CrcFits(h, payload) then CrcMismatch
    else Timeout
  }

  /** Whether the counter is 1 to `maxDeltaCounter` steps ahead of the last. */
  predicate Ahead(c: ProfileConfig, last: U32, counter: U32)
    requires ValidConfig(c)
  {
    1 <= (counter as int - last as int) % CounterRange(c.counterBits) <= c.maxDeltaCounter
  }

  lemma AheadIsDelta(c: ProfileConfig, last: U32, counter: U32)
    requires ValidConfig(c) && last < CounterRange(c.counterBits) && counter < CounterRange(c.counterBits)
    ensures CounterDelta(c, last, counter) == (counter as int - last as int) % CounterRange(c.counterBits)
  {
    ConfigIsFit(c);
    var range := CounterRange(c.counterBits);
    if counter < last {
      assert 0 <= counter as int - last as int + range < range;
      assert (counter as int - last as int) % range == counter as int - last as int + range;
    }
  }

  /**
   The verdict on a well-formed frame. An unsound one is refused and leaves the receiver as it is. A sound one is
   new to a receiver that has seen nothing; otherwise its counter decides: the last one again is a repetition,
   accepted up to the limit and counted; 1 to `maxDeltaCounter` ahead is new and remembered; all else is refused.
   */
  lemma VerdictIsExact(c: ProfileConfig, h: FrameHeader, payload: seq<Byte>, nowMs: U64, r: Receiver)
    requires ValidConfig(c) && h.payloadLength == |payload|
    requires r.initialized ==> r.lastCounter < CounterRange(c.counterBits)
    ensures var (v, r') := Checked(c, Serialized(h, payload), nowMs, r);
      var count := if r.repetitionCount < 0xFFFF_FFFF then r.repetitionCount + 1 else 0xFFFF_FFFF;
      && v.header == h && (v.accepted ==> v.payload == payload)
      && (if !Sound(c, h, payload, nowMs) then v.status == Fault(c, h, payload) && !v.accepted && r' == r
          else if r.initialized && h.counter == r.lastCounter then
            && v.status == Repeated && r' == r.(repetitionCount := count)
            && (v.accepted <==> count <= c.maxRepetitions)
          else if r.initialized && !Ahead(c, r.lastCounter, h.counter) then
            v.status == WrongSequence && !v.accepted && r' == r
          else v.status == Ok && v.accepted && r' == Receiver(true, h.counter, h.timestampMs, 0))
  {
    hide Serialized, Parsed, Checksum, CrcMaterial, CounterDelta;
    ParseSerialized(h, payload);
    ConfigIsFit(c);
    if r.initialized && h.counter < CounterRange(c.counterBits) {
      AheadIsDelta(c, r.lastCounter, h.counter);
    }
  }

  /** A frame that is not well formed is refused, and leaves the receiver as it is. */
  lemma MalformedIsRefused(c: ProfileConfig, frame: seq<Byte>, nowMs: U64, r: Receiver)
    requires ValidConfig(c) && Parsed(frame).status != Ok
    ensures var (v, r') := Checked(c, frame, nowMs, r);
      v.status == Parsed(frame).status && !v.accepted && v.payload == [] && r' == r
  {
    hide Parsed;
  }
}
