/** The raw data stream channel: reassembly of fragments, duplicate suppression and a bounded queue. */
module RawDataStream {
  import opened Bytes
  import opened StreamChecksum

  datatype BufferPolicy = RejectNewest | DropOldest

  datatype ReceiptStatus =
    | Accepted
    | Reassembled
    | BackpressureRejected
    | DroppedOldest
    | Stale
    | Duplicate
    | Malformed
    | Corrupt

  datatype Config = Config(
    channelId: string,
    maxFramePayloadBytes: nat,
    maxSampleBytes: nat,
    maxFragmentsPerSample: U16,
    queueDepth: U64,
    staleTimeoutMs: U32,
    bufferPolicy: BufferPolicy,
    requireMonotonicTime: bool,
    allowFragmentReassembly: bool)

  datatype Frame = Frame(
    channelId: string,
    sequence: U64,
    fragmentIndex: U16,
    fragmentCount: U16,
    monotonicMs: U64,
    payloadChecksum: U32,
    payload: seq<Byte>)

  datatype Sample = Sample(
    channelId: string,
    sequence: U64,
    monotonicMs: U64,
    fragmentCount: U16,
    payloadChecksum: U32,
    payload: seq<Byte>)

  datatype Receipt = Receipt(status: ReceiptStatus, sequence: U64, droppedSequence: U64, queuedSamples: nat)

  datatype Pending = Pending(
    sequence: U64, monotonicMs: U64, fragments: seq<seq<Byte>>, received: seq<bool>, totalBytes: nat)

  datatype Counters = Counters(
    acceptedFrames: U64,
    rejectedFrames: U64,
    droppedSamples: U64,
    staleFrames: U64,
    duplicateFrames: U64,
    corruptFrames: U64,
    reassembledSamples: U64)

  datatype Channel = Channel(
    config: Config,
    queue: seq<Sample>,
    pending: seq<Pending>,
    completed: seq<U64>,
    latestMonotonicMs: U64,
    counters: Counters)

  function Max(a: U64, b: U64): U64 {
    if a < b then b else a
  }

  // ----- configuration -----

  predicate IsSafeCharacter(ch: char) {
    'a' <= ch <= 'z' || 'A' <= ch <= 'Z' || '0' <= ch <= '9' || ch in "-_./"
  }

  predicate IsSafeIdentifier(value: string) {
    value != [] && |value| <= 96 && forall i :: 0 <= i < |value| ==> IsSafeCharacter(value[i])
  }

  predicate ValidConfig(c: Config) {
    && IsSafeIdentifier(c.channelId)
    && 0 < c.maxFramePayloadBytes <= c.maxSampleBytes
    && c.maxFragmentsPerSample != 0 && c.queueDepth != 0
    && c.staleTimeoutMs != 0
  }

  function Opened(c: Config): Channel {
    Channel(c, [], [], [], 0, Counters(0, 0, 0, 0, 0, 0, 0))
  }

  /** How many completed sequence numbers are remembered. */
  function Window(c: Config): U64 {
    (c.queueDepth + c.maxFragmentsPerSample as int) % U64_MODULUS
  }

  // ----- looking at a frame -----

  predicate ValidFrame(c: Config, f: Frame) {
    && f.channelId == c.channelId
    && f.sequence != 0
    && f.payload != [] && |f.payload| <= c.maxFramePayloadBytes
    && f.fragmentIndex < f.fragmentCount
    && f.fragmentCount <= c.maxFragmentsPerSample
    && (f.fragmentCount > 1 ==> c.allowFragmentReassembly)
  }

  predicate Intact(f: Frame) {
    f.payloadChecksum == 0 || f.payloadChecksum == Checksum(f.payload)
  }

  predicate IsStale(s: Channel, f: Frame) {
    && s.config.requireMonotonicTime && s.latestMonotonicMs != 0
    && (f.monotonicMs + s.config.staleTimeoutMs as int) % U64_MODULUS < s.latestMonotonicMs
  }

  predicate Queued(queue: seq<Sample>, sequence: U64) {
    exists i :: 0 <= i < |queue| && queue[i].sequence == sequence
  }

  /** The index of the pending entry for the sequence, or the number of entries if there is none. */
  function FindPending(pending: seq<Pending>, sequence: U64): (i: nat)
    ensures i <= |pending|
    ensures i < |pending| ==> pending[i].sequence == sequence
    ensures forall j :: 0 <= j < i ==> pending[j].sequence != sequence
  {
    if pending == [] || pending[0].sequence == sequence then 0 else 1 + FindPending(pending[1..], sequence)
  }

  predicate IsDuplicate(s: Channel, f: Frame) {
    || f.sequence in s.completed
    || Queued(s.queue, f.sequence)
    || var i := FindPending(s.pending, f.sequence);
       i < |s.pending|
       && (f.fragmentIndex >= |s.pending[i].received| || s.pending[i].received[f.fragmentIndex])
  }

  // ----- rejecting and enqueuing -----

  function Counted(n: Counters, status: ReceiptStatus): Counters {
    var m := n.(rejectedFrames := Increment(n.rejectedFrames));
    match status
    case Stale => m.(staleFrames := Increment(m.staleFrames))
    case Duplicate => m.(duplicateFrames := Increment(m.duplicateFrames))
    case Corrupt => m.(corruptFrames := Increment(m.corruptFrames))
    case _ => m
  }

  function Rejected(s: Channel, status: ReceiptStatus, sequence: U64): (Channel, Receipt) {
    (s.(counters := Counted(s.counters, status)), Receipt(status, sequence, 0, |s.queue|))
  }

  function Remembered(c: Config, completed: seq<U64>, sequence: U64): seq<U64> {
    var longer := completed + [sequence];
    if |longer| > Window(c) then longer[1..] else longer
  }

  predicate Full(s: Channel) {
    |s.queue| >= s.config.queueDepth
  }

  function Enqueued(s: Channel, sample: Sample, status: ReceiptStatus): (Channel, Receipt)
    requires 0 < s.config.queueDepth
  {
    if Full(s) && s.config.bufferPolicy.RejectNewest? then
      (s.(counters := s.counters.(rejectedFrames := Increment(s.counters.rejectedFrames))),
       Receipt(BackpressureRejected, sample.sequence, 0, |s.queue|))
    else
      var kept := if Full(s) then s.queue[1..] else s.queue;
      (s.(queue := kept + [sample],
          completed := Remembered(s.config, s.completed, sample.sequence),
          counters :=
            if Full(s) then s.counters.(droppedSamples := Increment(s.counters.droppedSamples)) else s.counters),
       Receipt(
         if Full(s) then DroppedOldest else status, sample.sequence,
         if Full(s) then s.queue[0].sequence else 0, |kept| + 1))
  }

  // ----- fragments -----

  function Joined(fragments: seq<seq<Byte>>): seq<Byte> {
    if fragments == [] then [] else Joined(fragments[..|fragments| - 1]) + fragments[|fragments| - 1]
  }

  function Complete(received: seq<bool>): bool {
    forall i :: 0 <= i < |received| ==> received[i]
  }

  function NoFragments(n: nat): (fragments: seq<seq<Byte>>) {
    seq(n, _ => [])
  }

  function NewPending(f: Frame): Pending {
    Pending(
      f.sequence, f.monotonicMs, NoFragments(f.fragmentCount), seq(f.fragmentCount, _ => false), 0)
  }

  function WithFragment(p: Pending, f: Frame): Pending
    requires f.fragmentIndex < |p.fragments| && f.fragmentIndex < |p.received|
  {
    Pending(
      p.sequence, Max(p.monotonicMs, f.monotonicMs),
      p.fragments[f.fragmentIndex := f.payload], p.received[f.fragmentIndex := true],
      p.totalBytes + |f.payload|)
  }

  function Assembled(c: Config, p: Pending): Sample {
    Sample(
      c.channelId, p.sequence, p.monotonicMs, |p.fragments| % 0x1_0000,
      Checksum(Joined(p.fragments)), Joined(p.fragments))
  }

  function Without(pending: seq<Pending>, i: nat): seq<Pending>
    requires i < |pending|
  {
    pending[..i] + pending[i + 1..]
  }

  /** The pending entry the frame belongs to, created if there is none yet. */
  function Opening(pending: seq<Pending>, f: Frame): seq<Pending> {
    if FindPending(pending, f.sequence) < |pending| then pending else pending + [NewPending(f)]
  }

  /** The fragment has a place of its own in the entry it belongs to. */
  predicate HasPlace(pending: seq<Pending>, f: Frame) {
    var i := FindPending(pending, f.sequence);
    if i < |pending| then f.fragmentIndex < |pending[i].fragments| && |pending[i].fragments| == |pending[i].received|
    else f.fragmentIndex < f.fragmentCount
  }

  function PushedFragment(s: Channel, f: Frame): (Channel, Receipt)
    requires 0 < s.config.queueDepth && HasPlace(s.pending, f)
  {
    var i, opening := FindPending(s.pending, f.sequence), Opening(s.pending, f);
    var p := WithFragment(opening[i], f);
    if p.totalBytes > s.config.maxSampleBytes then
      Rejected(s.(pending := Without(opening, i)), Malformed, p.sequence)
    else if !Complete(p.received) then
      (s.(pending := opening[i := p]), Receipt(Accepted, f.sequence, 0, |s.queue|))
    else
      Enqueued(
        s.(pending := Without(opening, i),
           counters := s.counters.(reassembledSamples := Increment(s.counters.reassembledSamples))),
        Assembled(s.config, p), Reassembled)
  }

  function WholeSample(f: Frame): Sample {
    Sample(f.channelId, f.sequence, f.monotonicMs, 1, Checksum(f.payload), f.payload)
  }

  // ----- pushing and polling -----

  /** Each pending entry has as many flags as fragments. */
  predicate WellFormed(s: Channel) {
    && ValidConfig(s.config)
    && forall i :: 0 <= i < |s.pending| ==> |s.pending[i].fragments| == |s.pending[i].received|
  }

  /** The channel after a frame has passed the checks. */
  function Admitted(s: Channel, f: Frame): Channel {
    s.(latestMonotonicMs := Max(s.latestMonotonicMs, f.monotonicMs),
       counters := s.counters.(acceptedFrames := Increment(s.counters.acceptedFrames)))
  }

  function Pushed(s: Channel, f: Frame): (Channel, Receipt)
    requires WellFormed(s)
  {
    if !ValidFrame(s.config, f) then Rejected(s, Malformed, f.sequence)
    else if !Intact(f) then Rejected(s, Corrupt, f.sequence)
    else if IsStale(s, f) then Rejected(s, Stale, f.sequence)
    else if IsDuplicate(s, f) then
      Rejected(s.(latestMonotonicMs := Max(s.latestMonotonicMs, f.monotonicMs)), Duplicate, f.sequence)
    else if f.fragmentCount == 1 then Enqueued(Admitted(s, f), WholeSample(f), Accepted)
    else PushedFragment(Admitted(s, f), f)
  }

  function Polled(s: Channel): (Channel, Option<Sample>) {
    if s.queue == [] then (s, None) else (s.(queue := s.queue[1..]), Some(s.queue[0]))
  }

  // ----- the channel itself -----

  class RawDataStreamChannel {
    const config: Config
    var queue: seq<Sample>
    var pending: seq<Pending>
    var completed: seq<U64>
    var latestMonotonicMs: U64
    var counters: Counters

    constructor (c: Config)
      ensures State() == Opened(c)
    {
      config, queue, pending, completed := c, [], [], [];
      latestMonotonicMs, counters := 0, Counters(0, 0, 0, 0, 0, 0, 0);
    }

    ghost function State(): Channel
      reads this
    {
      Channel(config, queue, pending, completed, latestMonotonicMs, counters)
    }

    static method Open(c: Config) returns (r: Option<RawDataStreamChannel>)
      ensures r.Some? <==> ValidConfig(c)
      ensures r.Some? ==> fresh(r.value) && r.value.State() == Opened(c)
    {
      if !ValidConfig(c) {
        return None;
      }
      var channel := new RawDataStreamChannel(c);
      return Some(channel);
    }

    method Push(f: Frame) returns (r: Receipt)
      requires WellFormed(State())
      modifies this
      ensures (State(), r) == Pushed(old(State()), f)
    {
      hide Checksum, IsSafeIdentifier, Queued;
      if !ValidFrame(config, f) {
        r := Reject(Malformed, f.sequence);
        return;
      }
      if f.payloadChecksum != 0 {
        var checksum := CalculateChecksum(f.payload);
        if f.payloadChecksum != checksum {
          r := Reject(Corrupt, f.sequence);
          return;
        }
      }
      if IsStale(Channel(config, queue, pending, completed, latestMonotonicMs, counters), f) {
        r := Reject(Stale, f.sequence);
        return;
      }
      ghost var before := State();
      latestMonotonicMs := Max(latestMonotonicMs, f.monotonicMs);
      var duplicate := IsDuplicateFrame(f);
      if duplicate {
        r := Reject(Duplicate, f.sequence);
        return;
      }
      counters := counters.(acceptedFrames := Increment(counters.acceptedFrames));
      assert State() == Admitted(before, f);
      if f.fragmentCount == 1 {
        var checksum := CalculateChecksum(f.payload);
        r := Enqueue(Sample(f.channelId, f.sequence, f.monotonicMs, 1, checksum, f.payload), Accepted);
      } else {
        r := PushFragmented(f);
      }
    }

    method Poll() returns (r: Option<Sample>)
      modifies this
      ensures (State(), r) == Polled(old(State()))
    {
      if queue == [] {
        return None;
      }
      r := Some(queue[0]);
      queue := queue[1..];
    }

    method IsDuplicateFrame(f: Frame) returns (duplicate: bool)
      ensures duplicate == IsDuplicate(State(), f)
    {
      if f.sequence in completed {
        return true;
      }
      for i := 0 to |queue|
        invariant forall j :: 0 <= j < i ==> queue[j].sequence != f.sequence
      {
        if queue[i].sequence == f.sequence {
          return true;
        }
      }
      var i := FindPending(pending, f.sequence);
      if i == |pending| {
        return false;
      }
      if f.fragmentIndex >= |pending[i].received| {
        return true;
      }
      return pending[i].received[f.fragmentIndex];
    }

    method Reject(status: ReceiptStatus, sequence: U64) returns (r: Receipt)
      modifies this
      ensures (State(), r) == Rejected(old(State()), status, sequence)
    {
      counters := counters.(rejectedFrames := Increment(counters.rejectedFrames));
      if status == Stale {
        counters := counters.(staleFrames := Increment(counters.staleFrames));
      } else if status == Duplicate {
        counters := counters.(duplicateFrames := Increment(counters.duplicateFrames));
      } else if status == Corrupt {
        counters := counters.(corruptFrames := Increment(counters.corruptFrames));
      }
      return Receipt(status, sequence, 0, |queue|);
    }

    method Enqueue(sample: Sample, status: ReceiptStatus) returns (r: Receipt)
      requires 0 < config.queueDepth
      modifies this
      ensures (State(), r) == Enqueued(old(State()), sample, status)
    {
      r := Receipt(status, sample.sequence, 0, |queue|);
      if |queue| >= config.queueDepth {
        if config.bufferPolicy == RejectNewest {
          counters := counters.(rejectedFrames := Increment(counters.rejectedFrames));
          r := r.(status := BackpressureRejected);
          return;
        }
        r := r.(status := DroppedOldest, droppedSequence := queue[0].sequence);
        queue := queue[1..];
        counters := counters.(droppedSamples := Increment(counters.droppedSamples));
      }
      completed := completed + [sample.sequence];
      if |completed| > (config.queueDepth + config.maxFragmentsPerSample as int) % U64_MODULUS {
        completed := completed[1..];
      }
      queue := queue + [sample];
      r := r.(queuedSamples := |queue|);
    }

    method PushFragmented(f: Frame) returns (r: Receipt)
      requires 0 < config.queueDepth && HasPlace(pending, f)
      modifies this
      ensures (State(), r) == PushedFragment(old(State()), f)
    {
      hide Checksum, Window, Joined;
      var i := FindPending(pending, f.sequence);
      if i == |pending| {
        pending := pending + [NewPending(f)];
      }
      var p := pending[i];
      p := p.(fragments := p.fragments[f.fragmentIndex := f.payload]);
      p := p.(received := p.received[f.fragmentIndex := true]);
      p := p.(totalBytes := p.totalBytes + |p.fragments[f.fragmentIndex]|);
      p := p.(monotonicMs := Max(p.monotonicMs, f.monotonicMs));
      if p.totalBytes > config.maxSampleBytes {
        pending := Without(pending, i);
        r := Reject(Malformed, p.sequence);
        return;
      }
      var complete := PendingComplete(p);
      if !complete {
        pending := pending[i := p];
        return Receipt(Accepted, f.sequence, 0, |queue|);
      }
      var sample := Assemble(config, p);
      pending := Without(pending, i);
      counters := counters.(reassembledSamples := Increment(counters.reassembledSamples));
      r := Enqueue(sample, Reassembled);
    }
  }

  method PendingComplete(p: Pending) returns (complete: bool)
    ensures complete == Complete(p.received)
  {
    for i := 0 to |p.received|
      invariant forall j :: 0 <= j < i ==> p.received[j]
    {
      if !p.received[i] {
        return false;
      }
    }
    return true;
  }

  method Assemble(c: Config, p: Pending) returns (sample: Sample)
    ensures sample == Assembled(c, p)
  {
    hide Checksum;
    var payload := [];
    for i := 0 to |p.fragments|
      invariant payload == Joined(p.fragments[..i])
    {
      assert p.fragments[..i + 1][..i] == p.fragments[..i];
      payload := payload + p.fragments[i];
    }
    assert p.fragments[..|p.fragments|] == p.fragments;
    var checksum := CalculateChecksum(payload);
    return Sample(c.channelId, p.sequence, p.monotonicMs, |p.fragments| % 0x1_0000, checksum, payload);
  }
}
