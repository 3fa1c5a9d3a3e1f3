/** Which frames a receiver accepts, and which corruptions it can therefore never accept. */
module E2eDetection {
  import opened Bytes
  import opened Words
  import opened Crc32
  import opened E2eFrame
  import opened E2eProtection

  /** The frame a sender emits for these arguments when no fault is injected. */
  function SentFrame(c: ProfileConfig, payload: seq<Byte>, counter: U32, timestampMs: U64): (frame: seq<Byte>)
    requires ValidConfig(c) && |payload| < U32_MODULUS && counter <= MaxCounterValue(c.counterBits)
    ensures |frame| == HEADER_SIZE + |payload|
  {
    Protected(c, payload, counter, timestampMs, NoFault).value.frame
  }

  predicate InTime(c: ProfileConfig, timestampMs: U64, nowMs: U64) {
    nowMs <= timestampMs || nowMs - timestampMs <= c.timeoutMs
  }

  // ----- the receiver accepts exactly the frames of a sender with the same configuration -----

  /** A frame made for these arguments passes every check that does not depend on the receiver state. */
  lemma SentFramePasses(c: ProfileConfig, payload: seq<Byte>, counter: U32, timestampMs: U64, nowMs: U64)
    requires ValidConfig(c) && |payload| < U32_MODULUS && counter <= MaxCounterValue(c.counterBits)
    requires InTime(c, timestampMs, nowMs)
    ensures var v := FrameVerdict(c, SentFrame(c, payload, counter, timestampMs), nowMs);
      && v.status == Ok && v.accepted && v.payload == payload
      && v.header.counter == counter && v.header.timestampMs == timestampMs
  {
    hide Serialized, Parsed, Checksum, CrcMaterial;
    var h := Sealed(ProtectedHeader(c, payload, counter, timestampMs, NoFault), payload);
    ParseSerialized(h, payload);
    MaterialIgnoresCrc(h, payload);
  }

  lemma MaterialIgnoresCrc(h: FrameHeader, payload: seq<Byte>)
    ensures forall crc: U32 :: CrcMaterial(h.(crc32 := crc), payload) == CrcMaterial(h, payload)
  {
    hide Serialized;
    assert forall crc: U32 :: h.(crc32 := crc).(crc32 := 0) == h.(crc32 := 0);
  }

  /** Conversely, a frame that passes is the one a sender emits for the header and payload it carries. */
  lemma PassingFrameWasSent(c: ProfileConfig, frame: seq<Byte>, nowMs: U64)
    requires ValidConfig(c) && FrameVerdict(c, frame, nowMs).status == Ok
    ensures var v := FrameVerdict(c, frame, nowMs);
      && |v.payload| < U32_MODULUS
      && v.header.counter <= MaxCounterValue(c.counterBits)
      && InTime(c, v.header.timestampMs, nowMs)
      && frame == SentFrame(c, v.payload, v.header.counter, v.header.timestampMs)
  {
    hide Serialized, Parsed, Checksum, CrcMaterial;
    var h, payload := Parsed(frame).header, Parsed(frame).payload;
    SerializeParsed(frame);
    MaterialIgnoresCrc(h, payload);
    var unsealed := ProtectedHeader(c, payload, h.counter, h.timestampMs, NoFault);
    assert unsealed == h.(crc32 := 0);
    assert Sealed(unsealed, payload) == h;
  }

  // ----- corrupted frames -----

  /** The length field holds the length, and the CRC field the checksum of the octets around it. */
  predicate IsSealed(frame: seq<Byte>) {
    && HEADER_SIZE <= |frame| < HEADER_SIZE + U32_MODULUS && frame[..4] == MAGIC
    && frame[24..28] == PutU32Be(|frame| - HEADER_SIZE)
    && GetU32Be(frame, 28) == Checksum(CoveredOctets(frame))
  }

  lemma PassingFrameIsSealed(c: ProfileConfig, frame: seq<Byte>, nowMs: U64)
    requires ValidConfig(c) && FrameVerdict(c, frame, nowMs).status == Ok
    ensures IsSealed(frame)
  {
    hide Serialized, Checksum, CrcMaterial, GetU32Be, GetU16Be, GetU64Be, PutU32Be, PutU16Be, PutU64Be;
    SerializeParsed(frame);
    HeaderOfParsed(frame);
    MaterialOfFrame(Parsed(frame).header, Parsed(frame).payload);
  }

  /** The two octet strings agree outside the `width` octets starting at `at`. */
  predicate AgreeOutside(a: seq<Byte>, b: seq<Byte>, at: nat, width: nat) {
    && |a| == |b|
    && forall k :: 0 <= k < |a| && !(at <= k < at + width) ==> a[k] == b[k]
  }

  /** The octets `at .. at + width` lie before the CRC field, in the length and CRC fields, or behind them. */
  predicate WithinOnePart(at: nat, width: nat) {
    at + width <= 28 || (24 <= at && at + width <= 32) || 32 <= at
  }

  lemma CoverageDeterminesFrame(a: seq<Byte>, b: seq<Byte>)
    requires IsSealed(a) && IsSealed(b) && |a| == |b| && CoveredOctets(a) == CoveredOctets(b)
    ensures a == b
  {
    hide Checksum, GetU32Be, PutU32Be;
    WriteU32Be(a, 28);
    WriteU32Be(b, 28);
    assert a[4..28] == CoveredOctets(a)[..24] && b[4..28] == CoveredOctets(b)[..24];
    assert a[32..] == CoveredOctets(a)[28..] && b[32..] == CoveredOctets(b)[28..];
    assert a == a[..4] + a[4..28] + a[28..32] + a[32..];
    assert b == b[..4] + b[4..28] + b[28..32] + b[32..];
  }

  lemma CoverageAgreesOutside(a: seq<Byte>, b: seq<Byte>, at: nat, width: nat)
    requires HEADER_SIZE <= |a| && AgreeOutside(a, b, at, width) && width <= 4
    requires at + width <= 28 || (28 <= at && at + width <= 32) || 32 <= at
    ensures 28 <= at < 32 ==> CoveredOctets(a) == CoveredOctets(b)
    ensures AgreeOutside(CoveredOctets(a), CoveredOctets(b), if at < 4 then 0 else at - 4, 4)
  {
    var x, y := CoveredOctets(a), CoveredOctets(b);
    forall k | 0 <= k < |x|
      ensures x[k] == if 24 <= k < 28 then 0 else a[k + 4]
      ensures y[k] == if 24 <= k < 28 then 0 else b[k + 4]
    {
    }
  }

  /** Frames of one length have the same length field, so a change across it and the CRC field is one of the CRC. */
  lemma OnlyCrcDiffers(a: seq<Byte>, b: seq<Byte>, at: nat, width: nat)
    requires IsSealed(a) && IsSealed(b) && AgreeOutside(a, b, at, width)
    requires 24 <= at && at + width <= 32
    ensures AgreeOutside(a, b, 28, 4)
  {
    hide Checksum, CoveredOctets, PutU32Be, GetU32Be;
    forall k | 24 <= k < 28
      ensures a[k] == b[k]
    {
      assert a[k] == a[24..28][k - 24] && b[k] == b[24..28][k - 24];
    }
  }

  /** Two sealed frames that agree outside four consecutive octets are the same frame. */
  lemma SealedFramesAreFarApart(a: seq<Byte>, b: seq<Byte>, at: nat, width: nat)
    requires IsSealed(a) && IsSealed(b) && width <= 4
    requires AgreeOutside(a, b, at, width) && WithinOnePart(at, width)
    ensures a == b
  {
    hide Checksum, PutU32Be, CoveredOctets;
    var from, size := at, width;
    if 24 <= at && at + width <= 32 {
      OnlyCrcDiffers(a, b, at, width);
      from, size := 28, 4;
    }
    CoverageAgreesOutside(a, b, from, size);
    if CoveredOctets(a) != CoveredOctets(b) {
      FourOctetsDetected(CoveredOctets(a), CoveredOctets(b), if from < 4 then 0 else from - 4);
      assert false;
    }
    CoverageDeterminesFrame(a, b);
  }

  lemma SentFrameIsSealed(c: ProfileConfig, payload: seq<Byte>, counter: U32, timestampMs: U64)
    requires ValidConfig(c) && |payload| < U32_MODULUS && counter <= MaxCounterValue(c.counterBits)
    ensures IsSealed(SentFrame(c, payload, counter, timestampMs))
  {
    hide SentFrame;
    SentFramePasses(c, payload, counter, timestampMs, timestampMs);
    PassingFrameIsSealed(c, SentFrame(c, payload, counter, timestampMs), timestampMs);
  }

  /**
   A frame changed anywhere within four consecutive octets of the header, CRC field included, or of
   the payload is rejected, whatever the receiver has seen, and leaves the receiver as it was.
   */
  lemma CorruptionRejected(
    c: ProfileConfig, payload: seq<Byte>, counter: U32, timestampMs: U64,
    got: seq<Byte>, at: nat, width: nat, nowMs: U64, r: Receiver)
    requires ValidConfig(c) && |payload| < U32_MODULUS && counter <= MaxCounterValue(c.counterBits)
    requires got != SentFrame(c, payload, counter, timestampMs)
    requires AgreeOutside(SentFrame(c, payload, counter, timestampMs), got, at, width)
    requires width <= 4 && WithinOnePart(at, width)
    ensures !Checked(c, got, nowMs, r).0.accepted && Checked(c, got, nowMs, r).1 == r
  {
    hide SentFrame, FrameVerdict, IsSealed;
    RejectedUnlessOk(c, got, nowMs);
    if FrameVerdict(c, got, nowMs).status == Ok {
      PassingFrameIsSealed(c, got, nowMs);
      SentFrameIsSealed(c, payload, counter, timestampMs);
      SealedFramesAreFarApart(SentFrame(c, payload, counter, timestampMs), got, at, width);
      assert false;
    }
  }

  lemma RejectedUnlessOk(c: ProfileConfig, frame: seq<Byte>, nowMs: U64)
    requires ValidConfig(c)
    ensures FrameVerdict(c, frame, nowMs).accepted <==> FrameVerdict(c, frame, nowMs).status == Ok
  {
    hide Parsed, CrcMaterial, Checksum;
  }

  /** In particular a frame with one wrong octet, wherever it is. */
  lemma OneOctetRejected(
    c: ProfileConfig, payload: seq<Byte>, counter: U32, timestampMs: U64,
    at: nat, wrong: Byte, nowMs: U64, r: Receiver)
    requires ValidConfig(c) && |payload| < U32_MODULUS && counter <= MaxCounterValue(c.counterBits)
    requires at < HEADER_SIZE + |payload| && wrong != SentFrame(c, payload, counter, timestampMs)[at]
    ensures var got := SentFrame(c, payload, counter, timestampMs)[at := wrong];
      !Checked(c, got, nowMs, r).0.accepted && Checked(c, got, nowMs, r).1 == r
  {
    hide SentFrame;
    var sent := SentFrame(c, payload, counter, timestampMs);
    var got := sent[at := wrong];
    assert got[at] != sent[at];
    CorruptionRejected(c, payload, counter, timestampMs, got, at, 1, nowMs, r);
  }

  /** A payload burst of at most 32 bits, not necessarily aligned to octets, is rejected too. */
  lemma PayloadBurstRejected(
    c: ProfileConfig, payload: seq<Byte>, counter: U32, timestampMs: U64,
    got: seq<Byte>, from: nat, nowMs: U64, r: Receiver)
    requires ValidConfig(c) && |payload| < U32_MODULUS && counter <= MaxCounterValue(c.counterBits)
    requires |got| == HEADER_SIZE + |payload| && got[32..] != payload
    requires got[..32] == SentFrame(c, payload, counter, timestampMs)[..32]
    requires DifferOnlyWithin(MessageBits(payload), MessageBits(got[32..]), from, 32)
    ensures !Checked(c, got, nowMs, r).0.accepted && Checked(c, got, nowMs, r).1 == r
  {
    hide SentFrame, FrameVerdict, Checksum, MessageBits, GetU32Be;
    var sent := SentFrame(c, payload, counter, timestampMs);
    SentFrameEndsWithPayload(c, payload, counter, timestampMs);
    RejectedUnlessOk(c, got, nowMs);
    if FrameVerdict(c, got, nowMs).status == Ok {
      PassingFrameIsSealed(c, got, nowMs);
      SentFrameIsSealed(c, payload, counter, timestampMs);
      var head := sent[4..28] + [0, 0, 0, 0];
      assert got[4..28] == got[..32][4..28] && sent[4..28] == sent[..32][4..28];
      assert CoveredOctets(sent) == head + payload && CoveredOctets(got) == head + got[32..];
      assert head + payload != head + got[32..] by {
        assert (head + payload)[28..] == payload && (head + got[32..])[28..] == got[32..];
      }
      BurstBehindPrefix(head, payload, got[32..], from);
      BurstDetected(head + payload, head + got[32..], 8 * |head| + from);
      WriteU32Be(sent, 28);
      WriteU32Be(got, 28);
      assert sent[28..32] == sent[..32][28..32] && got[28..32] == got[..32][28..32];
      SameFieldSameValue(sent, got);
      assert false;
    }
  }

  lemma SameFieldSameValue(a: seq<Byte>, b: seq<Byte>)
    requires HEADER_SIZE <= |a| && HEADER_SIZE <= |b| && a[28..32] == b[28..32]
    ensures GetU32Be(a, 28) == GetU32Be(b, 28)
  {
    ReadU32Be(a, 28, GetU32Be(b, 28)) by {
      WriteU32Be(b, 28);
    }
  }

  lemma SentFrameEndsWithPayload(c: ProfileConfig, payload: seq<Byte>, counter: U32, timestampMs: U64)
    requires ValidConfig(c) && |payload| < U32_MODULUS && counter <= MaxCounterValue(c.counterBits)
    ensures SentFrame(c, payload, counter, timestampMs)[32..] == payload
  {
    hide Checksum, CrcMaterial, HeaderBytes;
    FrameStartsWithHeader(Sealed(ProtectedHeader(c, payload, counter, timestampMs, NoFault), payload), payload);
  }

  lemma {:induction false} BitsOfConcat(a: seq<Byte>, b: seq<Byte>)
    ensures MessageBits(a + b) == MessageBits(a) + MessageBits(b)
    decreases |a|
  {
    hide Digits;
    if a == [] {
      assert a + b == b;
    } else {
      BitsOfConcat(a[1..], b);
      assert (a + b)[1..] == a[1..] + b && (a + b)[0] == a[0];
      assert MessageBits(a + b) == Digits(a[0], 8) + (MessageBits(a[1..]) + MessageBits(b));
    }
  }

  lemma BurstBehindPrefix(head: seq<Byte>, a: seq<Byte>, b: seq<Byte>, from: nat)
    requires DifferOnlyWithin(MessageBits(a), MessageBits(b), from, 32)
    ensures DifferOnlyWithin(MessageBits(head + a), MessageBits(head + b), 8 * |head| + from, 32)
  {
    hide MessageBits;
    BitsOfConcat(head, a);
    BitsOfConcat(head, b);
  }
}
