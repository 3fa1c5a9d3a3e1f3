/** What the samples of a channel contain: the payload of one frame, or the joined fragments of several. */
module RawDataStreamContents {
  import opened Bytes
  import opened StreamChecksum
  import opened RawDataStream
  import opened RawDataStreamRuns

  // ----- joining -----

  lemma {:induction false} JoinedConcat(a: seq<seq<Byte>>, b: seq<seq<Byte>>)
    ensures Joined(a + b) == Joined(a) + Joined(b)
    decreases |b|
  {
    if b == [] {
      assert a + b == a;
    } else {
      var n := |b| - 1;
      assert (a + b)[..|a| + n] == a + b[..n];
      JoinedConcat(a, b[..n]);
    }
  }

  predicate IsCut(cuts: seq<nat>, length: nat) {
    cuts != [] && forall i, j :: 0 <= i <= j < |cuts| ==> cuts[i] <= cuts[j] <= length
  }

  /** The pieces a payload is cut into at ascending places. */
  function Pieces(whole: seq<Byte>, cuts: seq<nat>): (pieces: seq<seq<Byte>>)
    requires IsCut(cuts, |whole|)
    ensures |pieces| == |cuts| - 1
  {
    seq(|cuts| - 1, i requires 0 <= i < |cuts| - 1 => whole[cuts[i]..cuts[i + 1]])
  }

  /** However a payload is cut into pieces, joining them gives it back. */
  lemma {:induction false} JoinedRestores(whole: seq<Byte>, cuts: seq<nat>)
    requires IsCut(cuts, |whole|)
    ensures Joined(Pieces(whole, cuts)) == whole[cuts[0]..cuts[|cuts| - 1]]
    decreases |cuts|
  {
    var n := |cuts| - 1;
    if n > 0 {
      JoinedRestores(whole, cuts[..n]);
      var pieces := Pieces(whole, cuts);
      assert pieces[..n - 1] == Pieces(whole, cuts[..n]);
      assert Joined(pieces) == whole[cuts[0]..cuts[n - 1]] + whole[cuts[n - 1]..cuts[n]];
    }
  }

  // ----- single frames -----

  /** A frame the channel must take: of the channel, complete in itself, and with a fitting checksum if it has one. */
  predicate Acceptable(c: Config, f: Frame) {
    && f.channelId == c.channelId && f.sequence != 0
    && 0 < |f.payload| <= c.maxFramePayloadBytes
    && f.fragmentIndex < f.fragmentCount <= c.maxFragmentsPerSample
    && (f.fragmentCount == 1 || c.allowFragmentReassembly)
    && (f.payloadChecksum == 0 || f.payloadChecksum == Checksum(f.payload))
  }

  /** A frame is late when its time, the timeout added in 64 bits, still lies before the latest time seen. */
  predicate Late(s: Channel, f: Frame) {
    && s.config.requireMonotonicTime && s.latestMonotonicMs != 0
    && (f.monotonicMs + s.config.staleTimeoutMs as int) % U64_MODULUS < s.latestMonotonicMs
  }

  /** Completed before, still queued, or a fragment that its sequence has already or has no place for. */
  ghost predicate SeenBefore(s: Channel, f: Frame) {
    || f.sequence in s.completed
    || (exists x :: x in s.queue && x.sequence == f.sequence)
    || exists p :: p in s.pending && p.sequence == f.sequence
         && (|p.received| <= f.fragmentIndex as nat || p.received[f.fragmentIndex])
  }

  lemma PendingIsFound(pending: seq<Pending>, sequence: U64)
    ensures FindPending(pending, sequence) < |pending| ==> pending[FindPending(pending, sequence)] in pending
    ensures forall p :: p in pending && p.sequence == sequence && DistinctEntries(pending) ==>
      FindPending(pending, sequence) < |pending| && pending[FindPending(pending, sequence)] == p
  {
    forall p | p in pending && p.sequence == sequence && DistinctEntries(pending)
      ensures FindPending(pending, sequence) < |pending| && pending[FindPending(pending, sequence)] == p
    {
      var i :| 0 <= i < |pending| && pending[i] == p;
      assert FindPending(pending, sequence) <= i;
    }
  }

  lemma DuplicateMeansSeen(s: Channel, f: Frame)
    requires DistinctEntries(s.pending)
    ensures IsDuplicate(s, f) <==> SeenBefore(s, f)
  {
    PendingIsFound(s.pending, f.sequence);
    assert Queued(s.queue, f.sequence) <==> exists x :: x in s.queue && x.sequence == f.sequence by {
      if Queued(s.queue, f.sequence) {
        var i :| 0 <= i < |s.queue| && s.queue[i].sequence == f.sequence;
        assert s.queue[i] in s.queue;
      }
    }
  }

  /** Which frames are refused, and why: the first reason that applies. */
  lemma RefusedFor(s: Channel, f: Frame)
    requires WellFormed(s) && DistinctEntries(s.pending)
    ensures var r := Pushed(s, f).1;
      && (r.status == Corrupt <==> Acceptable(s.config, f.(payloadChecksum := 0)) && !Acceptable(s.config, f))
      && (r.status == Stale <==> Acceptable(s.config, f) && Late(s, f))
      && (r.status == Duplicate <==> Acceptable(s.config, f) && !Late(s, f) && SeenBefore(s, f))
      && (!Acceptable(s.config, f.(payloadChecksum := 0)) ==> r.status == Malformed)
      && (Acceptable(s.config, f) && !Late(s, f) && !SeenBefore(s, f) && f.fragmentCount == 1 ==>
            r.status == Accepted || r.status == BackpressureRejected || r.status == DroppedOldest)
  {
    hide Checksum, Joined, IsDuplicate, SeenBefore, Complete, Remembered;
    DuplicateMeansSeen(s, f);
  }

  /** The latest time seen is that of every frame that was neither refused outright nor late. */
  lemma LatestTimeMoves(s: Channel, f: Frame)
    requires WellFormed(s)
    ensures Pushed(s, f).0.latestMonotonicMs ==
      if Acceptable(s.config, f) && !Late(s, f) && s.latestMonotonicMs < f.monotonicMs then f.monotonicMs
      else s.latestMonotonicMs
  {
    hide Checksum, Joined, IsDuplicate, Complete, Remembered;
  }

  /** Exactly the frames that are acceptable, in time and new are counted as accepted, even if there is no room left. */
  lemma NewFramesAreCounted(s: Channel, f: Frame)
    requires WellFormed(s) && DistinctEntries(s.pending)
    ensures Pushed(s, f).0.counters.acceptedFrames ==
      if Acceptable(s.config, f) && !Late(s, f) && !SeenBefore(s, f) then Increment(s.counters.acceptedFrames)
      else s.counters.acceptedFrames
  {
    hide Checksum, Joined, IsDuplicate, SeenBefore, Complete, Remembered, Increment, FindPending;
    DuplicateMeansSeen(s, f);
  }

  /** A whole frame that is not refused is queued just as it is, after the oldest was dropped if the queue was full. */
  lemma WholeFrameIsQueued(s: Channel, f: Frame)
    requires WellFormed(s) && DistinctEntries(s.pending)
    requires Acceptable(s.config, f) && f.fragmentCount == 1 && !Late(s, f) && !SeenBefore(s, f)
    requires |s.queue| < s.config.queueDepth || s.config.bufferPolicy.DropOldest?
    ensures var full, x := |s.queue| >= s.config.queueDepth,
          Sample(f.channelId, f.sequence, f.monotonicMs, 1, Checksum(f.payload), f.payload);
      var (s', r) := Pushed(s, f);
      && s'.queue == (if full then s.queue[1..] else s.queue) + [x]
      && r.status == (if full then DroppedOldest else Accepted)
      && s'.pending == s.pending
  {
    hide Checksum, IsDuplicate, SeenBefore, Remembered;
    DuplicateMeansSeen(s, f);
  }

  /** With a full queue and the other policy the frame is refused, and the queue stays. */
  lemma FullQueueRefuses(s: Channel, f: Frame)
    requires WellFormed(s) && DistinctEntries(s.pending)
    requires Acceptable(s.config, f) && f.fragmentCount == 1 && !Late(s, f) && !SeenBefore(s, f)
    requires |s.queue| >= s.config.queueDepth && s.config.bufferPolicy.RejectNewest?
    ensures var (s', r) := Pushed(s, f);
      r.status == BackpressureRejected && s'.queue == s.queue && s'.completed == s.completed
  {
    hide Checksum, IsDuplicate, SeenBefore, Remembered;
    DuplicateMeansSeen(s, f);
  }

  /** Polling takes the oldest sample and nothing else. */
  lemma PollTakesOldest(s: Channel)
    ensures var (s', x) := Polled(s);
      && (x.Some? <==> s.queue != []) && (x.Some? ==> s.queue == [x.value] + s'.queue)
      && s' == s.(queue := s'.queue) && (x.None? ==> s' == s)
  {
  }

  // ----- runs -----

  function FramesOf(actions: seq<Action>): seq<Frame> {
    if actions == [] then []
    else
      var n := |actions| - 1;
      FramesOf(actions[..n]) + if actions[n].Push? then [actions[n].frame] else []
  }

  /** An acceptable frame pushed before brought the part as fragment `k` of sequence `q`, no later than `latest`. */
  ghost predicate BroughtPart(c: Config, frames: seq<Frame>, q: U64, k: nat, part: seq<Byte>, latest: U64) {
    exists i :: 0 <= i < |frames| && Acceptable(c, frames[i]) && frames[i].sequence == q
      && frames[i].fragmentIndex as nat == k && frames[i].payload == part && frames[i].monotonicMs <= latest
  }

  ghost predicate SomeFrameAt(frames: seq<Frame>, q: U64, at: U64) {
    exists i :: 0 <= i < |frames| && frames[i].sequence == q && frames[i].monotonicMs == at
  }

  /** Every fragment held came with a frame, and the entry carries the latest of their times. */
  ghost predicate EntryExplained(c: Config, frames: seq<Frame>, p: Pending) {
    && |p.fragments| == |p.received|
    && (forall k :: 0 <= k < |p.received| && p.received[k] ==>
          BroughtPart(c, frames, p.sequence, k, p.fragments[k], p.monotonicMs))
    && SomeFrameAt(frames, p.sequence, p.monotonicMs)
  }

  ghost predicate FromOneFrame(c: Config, frames: seq<Frame>, x: Sample) {
    exists i :: 0 <= i < |frames| && Acceptable(c, frames[i]) && frames[i].fragmentCount == 1
      && x == Sample(
           c.channelId, frames[i].sequence, frames[i].monotonicMs, 1, Checksum(frames[i].payload), frames[i].payload)
  }

  ghost predicate FromFragments(c: Config, frames: seq<Frame>, x: Sample) {
    exists parts: seq<seq<Byte>> :: IsJoinOf(c, frames, x, parts)
  }

  ghost predicate IsJoinOf(c: Config, frames: seq<Frame>, x: Sample, parts: seq<seq<Byte>>) {
    && x == Sample(
         c.channelId, x.sequence, x.monotonicMs, |parts| % 0x1_0000, Checksum(Joined(parts)), Joined(parts))
    && (forall k :: 0 <= k < |parts| ==> BroughtPart(c, frames, x.sequence, k, parts[k], x.monotonicMs))
    && SomeFrameAt(frames, x.sequence, x.monotonicMs)
  }

  ghost predicate SampleExplained(c: Config, frames: seq<Frame>, x: Sample) {
    FromOneFrame(c, frames, x) || FromFragments(c, frames, x)
  }

  ghost predicate Explained(frames: seq<Frame>, run: Run) {
    var c := run.channel.config;
    && (forall p <- run.channel.pending :: EntryExplained(c, frames, p))
    && forall x <- run.entered :: SampleExplained(c, frames, x)
  }

  // ----- more frames explain no less -----

  lemma PartStays(c: Config, frames: seq<Frame>, more: seq<Frame>, q: U64, k: nat, part: seq<Byte>, a: U64, b: U64)
    requires BroughtPart(c, frames, q, k, part, a) && a <= b
    ensures BroughtPart(c, frames + more, q, k, part, b)
  {
    hide Acceptable;
    var i :| 0 <= i < |frames| && Acceptable(c, frames[i]) && frames[i].sequence == q
      && frames[i].fragmentIndex as nat == k && frames[i].payload == part && frames[i].monotonicMs <= a;
    assert (frames + more)[i] == frames[i];
  }

  lemma TimeStays(frames: seq<Frame>, more: seq<Frame>, q: U64, at: U64)
    requires SomeFrameAt(frames, q, at)
    ensures SomeFrameAt(frames + more, q, at)
  {
    var i :| 0 <= i < |frames| && frames[i].sequence == q && frames[i].monotonicMs == at;
    assert (frames + more)[i] == frames[i];
  }

  lemma EntryStays(c: Config, frames: seq<Frame>, more: seq<Frame>, p: Pending)
    requires EntryExplained(c, frames, p)
    ensures EntryExplained(c, frames + more, p)
  {
    hide BroughtPart, SomeFrameAt;
    TimeStays(frames, more, p.sequence, p.monotonicMs);
    forall k | 0 <= k < |p.received| && p.received[k]
      ensures BroughtPart(c, frames + more, p.sequence, k, p.fragments[k], p.monotonicMs)
    {
      PartStays(c, frames, more, p.sequence, k, p.fragments[k], p.monotonicMs, p.monotonicMs);
    }
  }

  lemma SampleStays(c: Config, frames: seq<Frame>, more: seq<Frame>, x: Sample)
    requires SampleExplained(c, frames, x)
    ensures SampleExplained(c, frames + more, x)
  {
    hide BroughtPart, SomeFrameAt, Joined, Checksum, Acceptable;
    if FromOneFrame(c, frames, x) {
      var i :| 0 <= i < |frames| && Acceptable(c, frames[i]) && frames[i].fragmentCount == 1
        && x == Sample(c.channelId, frames[i].sequence, frames[i].monotonicMs, 1, Checksum(frames[i].payload),
                       frames[i].payload);
      assert (frames + more)[i] == frames[i];
    } else {
      var parts :| IsJoinOf(c, frames, x, parts);
      TimeStays(frames, more, x.sequence, x.monotonicMs);
      forall k | 0 <= k < |parts|
        ensures BroughtPart(c, frames + more, x.sequence, k, parts[k], x.monotonicMs)
      {
        PartStays(c, frames, more, x.sequence, k, parts[k], x.monotonicMs, x.monotonicMs);
      }
      assert IsJoinOf(c, frames + more, x, parts);
    }
  }

  // ----- one push -----

  /** Putting a frame's payload into its entry leaves an explained entry. */
  lemma FragmentIsExplained(c: Config, frames: seq<Frame>, p: Pending, f: Frame)
    requires Acceptable(c, f) && f.sequence == p.sequence && f.fragmentIndex < |p.received|
    requires p == NewPending(f) || EntryExplained(c, frames, p)
    requires |p.fragments| == |p.received|
    ensures EntryExplained(c, frames + [f], WithFragment(p, f))
  {
    hide Acceptable;
    var p', more := WithFragment(p, f), frames + [f];
    assert more[|frames|] == f;
    forall k | 0 <= k < |p'.received| && p'.received[k]
      ensures BroughtPart(c, more, p.sequence, k, p'.fragments[k], p'.monotonicMs)
    {
      if k != f.fragmentIndex as nat {
        PartStays(c, frames, [f], p.sequence, k, p.fragments[k], p.monotonicMs, p'.monotonicMs);
      }
    }
    if p'.monotonicMs != f.monotonicMs {
      TimeStays(frames, [f], p.sequence, p.monotonicMs);
    }
  }

  lemma CompleteIsExplained(c: Config, frames: seq<Frame>, p: Pending)
    requires EntryExplained(c, frames, p) && Complete(p.received)
    ensures SampleExplained(c, frames, Assembled(c, p))
  {
    hide BroughtPart, SomeFrameAt, Joined, Checksum;
    assert IsJoinOf(c, frames, Assembled(c, p), p.fragments);
  }

  lemma WholeIsExplained(c: Config, frames: seq<Frame>, f: Frame)
    requires Acceptable(c, f) && f.fragmentCount == 1
    ensures SampleExplained(c, frames + [f], WholeSample(f))
  {
    hide Checksum;
    assert (frames + [f])[|frames|] == f;
  }

  ghost predicate PushExplained(c: Config, frames: seq<Frame>, s': Channel, f: Frame, r: Receipt) {
    && (forall p <- s'.pending :: EntryExplained(c, frames, p))
    && (Enters(f, r) ==> s'.queue != [] && SampleExplained(c, frames, s'.queue[|s'.queue| - 1]))
  }

  lemma EnqueuedLast(s: Channel, x: Sample, status: ReceiptStatus)
    requires 0 < s.config.queueDepth
    ensures var (s', r) := Enqueued(s, x, status);
      && s'.pending == s.pending
      && (r.status != BackpressureRejected ==> s'.queue != [] && s'.queue[|s'.queue| - 1] == x)
  {
    hide Remembered;
  }

  lemma FragmentPushExplained(s: Channel, frames: seq<Frame>, f: Frame)
    requires ValidConfig(s.config) && HasPlace(s.pending, f) && Acceptable(s.config, f) && f.fragmentCount != 1
    requires forall p <- s.pending :: EntryExplained(s.config, frames, p)
    ensures var (s', r) := PushedFragment(s, f);
      PushExplained(s.config, frames + [f], s', f, r)
  {
    hide EntryExplained, SampleExplained, Enqueued, Acceptable, ValidConfig, Complete, Joined, Checksum;
    var c, more := s.config, frames + [f];
    var i, opening := FindPending(s.pending, f.sequence), Opening(s.pending, f);
    var p := WithFragment(opening[i], f);
    if i < |s.pending| {
      assert s.pending[i] in s.pending;
    }
    assert HasDepth(c) by {
      DepthIsPositive(c);
    }
    FragmentIsExplained(c, frames, opening[i], f);
    forall q | q in s.pending
      ensures EntryExplained(c, more, q)
    {
      EntryStays(c, frames, [f], q);
    }
    forall q | q in Without(opening, i)
      ensures EntryExplained(c, more, q)
    {
      assert q in s.pending;
    }
    forall q | q in opening[i := p]
      ensures EntryExplained(c, more, q)
    {
      assert q == p || q in s.pending;
    }
    if p.totalBytes <= c.maxSampleBytes && Complete(p.received) {
      CompleteIsExplained(c, more, p);
      EnqueuedLast(
        s.(pending := Without(opening, i),
           counters := s.counters.(reassembledSamples := Increment(s.counters.reassembledSamples))),
        Assembled(c, p), Reassembled);
    }
  }

  predicate HasDepth(c: Config) {
    0 < c.queueDepth
  }

  lemma DepthIsPositive(c: Config)
    requires ValidConfig(c)
    ensures HasDepth(c)
  {
  }

  lemma AcceptableMeans(c: Config, f: Frame)
    ensures Acceptable(c, f) <==> ValidFrame(c, f) && Intact(f)
  {
    hide Checksum;
  }

  lemma PushIsExplained(s: Channel, frames: seq<Frame>, f: Frame)
    requires WellFormed(s) && PendingOk(s)
    requires forall p <- s.pending :: EntryExplained(s.config, frames, p)
    ensures PushExplained(s.config, frames + [f], Pushed(s, f).0, f, Pushed(s, f).1)
  {
    hide EntryExplained, SampleExplained, Enqueued, Acceptable, ValidConfig, ValidFrame, Intact, IsDuplicate;
    hide PushedFragment, WholeSample, PendingOk;
    forall p | p in s.pending
      ensures EntryExplained(s.config, frames + [f], p)
    {
      EntryStays(s.config, frames, [f], p);
    }
    AcceptableMeans(s.config, f);
    assert HasDepth(s.config) by {
      DepthIsPositive(s.config);
    }
    if ValidFrame(s.config, f) && Intact(f) && !IsStale(s, f) && !IsDuplicate(s, f) {
      if f.fragmentCount == 1 {
        WholeIsExplained(s.config, frames, f);
        EnqueuedLast(Admitted(s, f), WholeSample(f), Accepted);
        OfTheChannel(s.config, f);
      } else {
        HasPlaceIfNew(s, f);
        FragmentPushExplained(Admitted(s, f), frames, f);
      }
    }
  }

  lemma OfTheChannel(c: Config, f: Frame)
    requires Acceptable(c, f)
    ensures f.channelId == c.channelId
  {
  }

  lemma StepIsExplained(run: Run, frames: seq<Frame>, a: Action)
    requires Invariant(run) && Explained(frames, run)
    ensures Explained(frames + (if a.Push? then [a.frame] else []), Step(run, a))
  {
    hide EntryExplained, SampleExplained, Pushed, LogsAgree, PendingOk, ValidConfig;
    StepKeepsInvariant(run, a);
    match a
    case Push(f) =>
      PushIsExplained(run.channel, frames, f);
      forall x | x in run.entered
        ensures SampleExplained(run.channel.config, frames + [f], x)
      {
        SampleStays(run.channel.config, frames, [f], x);
      }
    case Poll => assert frames + [] == frames;
  }

  /**
   In every reachable state, every sample that ever entered the queue is the payload of one acceptable frame
   pushed before, or the fragments that such frames brought under its sequence, joined in index order; and so is
   every fragment still held.
   */
  lemma {:induction false} EverySampleIsExplained(c: Config, states: seq<Run>, actions: seq<Action>)
    requires ValidConfig(c) && IsRun(states, actions) && states[0] == Run(Opened(c), [], [])
    ensures Explained(FramesOf(actions), states[|actions|]) && states[|actions|].channel.config == c
    decreases |actions|
  {
    hide Step, ValidConfig, Invariant, WellFormed, Explained;
    InvariantHolds(c, states, actions);
    if actions == [] {
      NothingToExplain(c);
    } else {
      var n := |actions| - 1;
      EverySampleIsExplained(c, states[..n + 1], actions[..n]);
      assert states[..n + 1][n] == states[n];
      StepIsExplained(states[n], FramesOf(actions[..n]), actions[n]);
    }
  }

  lemma NothingToExplain(c: Config)
    ensures Explained([], Run(Opened(c), [], []))
  {
  }
}
