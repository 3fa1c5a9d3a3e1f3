/** Protecting a payload and checking a received frame against a receiver state. */
module E2eProtection {
  import opened Bytes
  import opened Words
  import opened Crc32
  import opened E2eFrame

  datatype DeploymentTrace = DeploymentTrace(
    serviceInstance: string,
    eventName: string,
    sourceModelPath: string,
    sourceModelPointer: string,
    deploymentRef: string)

  datatype ProfileConfig = ProfileConfig(
    profile: Profile,
    dataId: U32,
    counterBits: Byte,
    maxDeltaCounter: U32,
    timeoutMs: U32,
    maxRepetitions: U32,
    trace: DeploymentTrace)

  datatype FaultInjectionMode = NoFault | CorruptCrc | WrongDataId | RepeatCounter | StaleTimestamp | TruncatePayload

  datatype ProtectedPayload = ProtectedPayload(status: CheckStatus, header: FrameHeader, frame: seq<Byte>)

  datatype CheckedPayload = CheckedPayload(
    status: CheckStatus, accepted: bool, header: FrameHeader, payload: seq<Byte>)

  /** A receiver's memory of the last accepted frame. */
  datatype Receiver = Receiver(initialized: bool, lastCounter: U32, lastTimestampMs: U64, repetitionCount: U32)

  const FRESH_RECEIVER := Receiver(false, 0, 0, 0)

  // ----- configuration and counters -----

  predicate IsSupportedCounterWidth(bits: Byte) {
    bits == 4 || bits == 8 || bits == 16 || bits == 32
  }

  function MaxCounterValue(bits: Byte): U32
    requires IsSupportedCounterWidth(bits)
  {
    if bits == 32 then 0xFFFF_FFFF else if bits == 4 then 0xF else if bits == 8 then 0xFF else 0xFFFF
  }

  function CounterModulus(bits: Byte): nat
    requires IsSupportedCounterWidth(bits)
  {
    MaxCounterValue(bits) as nat + 1
  }

  predicate ValidConfig(c: ProfileConfig) {
    && c.dataId != 0
    && IsSupportedCounterWidth(c.counterBits)
    && 0 < c.maxDeltaCounter <= MaxCounterValue(c.counterBits)
    && c.timeoutMs != 0
    && c.trace.serviceInstance != [] && c.trace.eventName != []
    && c.trace.sourceModelPath != [] && c.trace.sourceModelPointer != []
  }

  function NextCounter(c: ProfileConfig, previous: U32): Option<U32> {
    if !ValidConfig(c) || previous > MaxCounterValue(c.counterBits) then None
    else Some((previous as nat + 1) % CounterModulus(c.counterBits))
  }

  /** The distance from one counter to the next, truncated to 32 bits as the code does. */
  function CounterDelta(c: ProfileConfig, previous: U32, current: U32): U32
    requires ValidConfig(c)
  {
    if current >= previous then current - previous
    else (CounterModulus(c.counterBits) as int - previous as int + current as int) % 0x1_0000_0000
  }

  // ----- protecting -----

  /** `v ^ 1`. */
  function FlipLowBit(v: nat): nat {
    if v % 2 == 0 then v + 1 else v - 1
  }

  /** What the fault injection does to the finished frame. */
  function Injected(frame: seq<Byte>, fault: FaultInjectionMode): seq<Byte>
    requires HEADER_SIZE <= |frame|
  {
    if fault.CorruptCrc? then frame[31 := FlipLowBit(frame[31])]
    else if fault.TruncatePayload? && |frame| > HEADER_SIZE then frame[..|frame| - 1]
    else frame
  }

  function ProtectedHeader(
    c: ProfileConfig, payload: seq<Byte>, counter: U32, timestampMs: U64, fault: FaultInjectionMode)
    : FrameHeader
    requires ValidConfig(c) && |payload| < U32_MODULUS
  {
    var staleDelta := c.timeoutMs + 1;
    FrameHeader(
      c.profile,
      if fault.WrongDataId? then FlipLowBit(c.dataId) else c.dataId,
      if fault.RepeatCounter? then (if counter == 0 then MaxCounterValue(c.counterBits) else counter - 1) else counter,
      if fault.StaleTimestamp? then (if timestampMs > staleDelta then timestampMs - staleDelta else 0) else timestampMs,
      |payload|,
      0)
  }

  /** The header with the CRC of the frame it belongs to. */
  function Sealed(h: FrameHeader, payload: seq<Byte>): FrameHeader {
    h.(crc32 := Checksum(CrcMaterial(h, payload)))
  }

  function Protected(c: ProfileConfig, payload: seq<Byte>, counter: U32, timestampMs: U64, fault: FaultInjectionMode)
    : Option<ProtectedPayload>
  {
    if !ValidConfig(c) || |payload| >= U32_MODULUS || counter > MaxCounterValue(c.counterBits) then None
    else
      var header := Sealed(ProtectedHeader(c, payload, counter, timestampMs, fault), payload);
      Some(ProtectedPayload(
        if fault.NoFault? then Ok else FaultInjected, header, Injected(Serialized(header, payload), fault)))
  }

  method ProtectPayload(
    c: ProfileConfig, payload: seq<Byte>, counter: U32, timestampMs: U64, fault: FaultInjectionMode)
    returns (r: Option<ProtectedPayload>)
    ensures r == Protected(c, payload, counter, timestampMs, fault)
  {
    hide Serialized, CrcMaterial, Checksum;
    if !ValidConfig(c) || |payload| >= U32_MODULUS || counter > MaxCounterValue(c.counterBits) {
      return None;
    }
    var header := ProtectedHeader(c, payload, counter, timestampMs, fault);
    var material := BuildCrcMaterial(header, payload);
    var crc := CalculateCrc32(material);
    header := header.(crc32 := crc);
    var frame := SerializeFrameWithCrc(header, payload);
    if fault.CorruptCrc? {
      frame := frame[31 := FlipLowBit(frame[31])];
    } else if fault.TruncatePayload? && |frame| > HEADER_SIZE {
      frame := frame[..|frame| - 1];
    }
    return Some(ProtectedPayload(if fault.NoFault? then Ok else FaultInjected, header, frame));
  }

  // ----- checking -----

  /** Verdicts that do not depend on what was received before. */
  function FrameVerdict(c: ProfileConfig, frame: seq<Byte>, nowMs: U64): CheckedPayload
    requires ValidConfig(c)
  {
    var parsed := Parsed(frame);
    var h := parsed.header;
    if parsed.status != Ok then CheckedPayload(parsed.status, false, h, [])
    else if h.profile != c.profile then CheckedPayload(WrongProfile, false, h, [])
    else if h.dataId != c.dataId then CheckedPayload(CheckStatus.WrongDataId, false, h, [])
    else if h.counter > MaxCounterValue(c.counterBits) then CheckedPayload(WrongSequence, false, h, [])
    else if Checksum(CrcMaterial(h, parsed.payload)) != h.crc32 then CheckedPayload(CrcMismatch, false, h, [])
    else if nowMs > h.timestampMs && nowMs - h.timestampMs > c.timeoutMs then
      CheckedPayload(Timeout, false, h, parsed.payload)
    else CheckedPayload(Ok, true, h, parsed.payload)
  }

  /** The verdict on a frame and the receiver state afterwards. */
  function Checked(c: ProfileConfig, frame: seq<Byte>, nowMs: U64, r: Receiver): (result: (CheckedPayload, Receiver))
    requires ValidConfig(c)
  {
    var v := FrameVerdict(c, frame, nowMs);
    var renewed := Receiver(true, v.header.counter, v.header.timestampMs, 0);
    if v.status != Ok then (v, r)
    else if !r.initialized then (v, renewed)
    else if v.header.counter == r.lastCounter then
      var count := if r.repetitionCount == 0xFFFF_FFFF then r.repetitionCount else r.repetitionCount + 1;
      (v.(status := Repeated, accepted := count <= c.maxRepetitions), r.(repetitionCount := count))
    else
      var delta := CounterDelta(c, r.lastCounter, v.header.counter);
      if delta == 0 || delta > c.maxDeltaCounter then (v.(status := WrongSequence, accepted := false), r)
      else (v, renewed)
  }

  class ReceiverState {
    var initialized: bool
    var lastCounter: U32
    var lastTimestampMs: U64
    var repetitionCount: U32

    constructor ()
      ensures Value() == FRESH_RECEIVER
    {
      initialized, lastCounter, lastTimestampMs, repetitionCount := false, 0, 0, 0;
    }

    ghost function Value(): Receiver
      reads this
    {
      Receiver(initialized, lastCounter, lastTimestampMs, repetitionCount)
    }
  }

  /** Without a receiver state a frame is judged as by a receiver that has seen nothing. */
  method CheckPayload(c: ProfileConfig, frame: seq<Byte>, nowMs: U64, state: ReceiverState?)
    returns (r: Option<CheckedPayload>)
    modifies state
    ensures !ValidConfig(c) ==> r == None && (state != null ==> state.Value() == old(state.Value()))
    ensures ValidConfig(c) && state == null ==> r == Some(Checked(c, frame, nowMs, FRESH_RECEIVER).0)
    ensures ValidConfig(c) && state != null ==>
      && r == Some(Checked(c, frame, nowMs, old(state.Value())).0)
      && state.Value() == Checked(c, frame, nowMs, old(state.Value())).1
  {
    hide Parsed, CrcMaterial, Checksum;
    if !ValidConfig(c) {
      return None;
    }
    var parsed := ParseProtectedFrame(frame);
    var header := parsed.header;
    if parsed.status != Ok {
      return Some(CheckedPayload(parsed.status, false, header, []));
    }
    if header.profile != c.profile {
      return Some(CheckedPayload(WrongProfile, false, header, []));
    }
    if header.dataId != c.dataId {
      return Some(CheckedPayload(CheckStatus.WrongDataId, false, header, []));
    }
    if header.counter > MaxCounterValue(c.counterBits) {
      return Some(CheckedPayload(WrongSequence, false, header, []));
    }
    var material := BuildCrcMaterial(header, parsed.payload);
    var expectedCrc := CalculateCrc32(material);
    if expectedCrc != header.crc32 {
      return Some(CheckedPayload(CrcMismatch, false, header, []));
    }
    var ageMs := if nowMs > header.timestampMs then nowMs - header.timestampMs else 0;
    if ageMs > c.timeoutMs {
      return Some(CheckedPayload(Timeout, false, header, parsed.payload));
    }
    if state != null && state.initialized {
      if header.counter == state.lastCounter {
        if state.repetitionCount != 0xFFFF_FFFF {
          state.repetitionCount := state.repetitionCount + 1;
        }
        var accepted := state.repetitionCount <= c.maxRepetitions;
        return Some(CheckedPayload(Repeated, accepted, header, parsed.payload));
      }
      var delta := CounterDelta(c, state.lastCounter, header.counter);
      if delta == 0 || delta > c.maxDeltaCounter {
        return Some(CheckedPayload(WrongSequence, false, header, parsed.payload));
      }
    }
    if state != null {
      state.initialized := true;
      state.lastCounter := header.counter;
      state.lastTimestampMs := header.timestampMs;
      state.repetitionCount := 0;
    }
    return Some(CheckedPayload(Ok, true, header, parsed.payload));
  }
}
