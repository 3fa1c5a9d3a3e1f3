/** What holds in every state a channel can reach by pushing and polling. */
module RawDataStreamRuns {
  import opened Bytes
  import opened Suffixes
  import opened StreamChecksum
  import opened RawDataStream

  datatype Action = Push(frame: Frame) | Poll

  /** A sample leaves the queue by being polled or by being dropped. */
  datatype Departure = Departure(sample: Sample, polled: bool)

  /** A channel with the logs of everything that ever entered and left its queue. */
  datatype Run = Run(channel: Channel, entered: seq<Sample>, departed: seq<Departure>)

  /** The frame put a sample into the queue. */
  predicate Enters(f: Frame, r: Receipt) {
    r.status == Reassembled || r.status == DroppedOldest || (r.status == Accepted && f.fragmentCount == 1)
  }

  function Step(run: Run, a: Action): Run
    requires WellFormed(run.channel)
  {
    match a
    case Push(f) =>
      var (s, r) := Pushed(run.channel, f);
      Run(
        s,
        run.entered + (if Enters(f, r) && s.queue != [] then [s.queue[|s.queue| - 1]] else []),
        run.departed +
          if r.status == DroppedOldest && run.channel.queue != [] then [Departure(run.channel.queue[0], false)] else [])
    case Poll =>
      var (s, sample) := Polled(run.channel);
      Run(s, run.entered, run.departed + if sample.None? then [] else [Departure(sample.value, true)])
  }

  // ----- the pending entries -----

  function TotalLength(fragments: seq<seq<Byte>>): nat {
    if fragments == [] then 0 else TotalLength(fragments[..|fragments| - 1]) + |fragments[|fragments| - 1]|
  }

  /** An entry at rest: incomplete, within the limit, and its byte total is the sum of what it holds. */
  predicate EntryOk(c: Config, p: Pending) {
    && |p.fragments| == |p.received|
    && (forall i :: 0 <= i < |p.received| ==> (p.received[i] <==> p.fragments[i] != []))
    && p.totalBytes == TotalLength(p.fragments) <= c.maxSampleBytes
    && !Complete(p.received)
  }

  predicate PendingOk(s: Channel) {
    EntriesOk(s.config, s.pending)
  }

  predicate EntriesOk(c: Config, pending: seq<Pending>) {
    && (forall i :: 0 <= i < |pending| ==> EntryOk(c, pending[i]))
    && DistinctEntries(pending)
  }

  predicate DistinctEntries(pending: seq<Pending>) {
    forall i, j :: 0 <= i < j < |pending| ==> pending[i].sequence != pending[j].sequence
  }

  lemma {:induction false} LengthOfUpdate(fragments: seq<seq<Byte>>, i: nat, payload: seq<Byte>)
    requires i < |fragments|
    ensures TotalLength(fragments[i := payload]) == TotalLength(fragments) - |fragments[i]| + |payload|
    decreases |fragments|
  {
    var n, after := |fragments| - 1, fragments[i := payload];
    if i < n {
      LengthOfUpdate(fragments[..n], i, payload);
      assert after[..n] == fragments[..n][i := payload];
    } else {
      assert after[..n] == fragments[..n];
    }
  }

  lemma {:induction false} LengthOfNothing(n: nat)
    ensures TotalLength(NoFragments(n)) == 0
  {
    if n > 0 {
      LengthOfNothing(n - 1);
      assert NoFragments(n)[..n - 1] == NoFragments(n - 1);
    }
  }

  /** What is known of an entry before its last fragment is put in. */
  predicate Consistent(p: Pending) {
    && |p.fragments| == |p.received|
    && (forall i :: 0 <= i < |p.received| ==> (p.received[i] <==> p.fragments[i] != []))
    && p.totalBytes == TotalLength(p.fragments)
  }

  lemma FragmentAdded(p: Pending, f: Frame)
    requires Consistent(p) && f.fragmentIndex < |p.received| && !p.received[f.fragmentIndex] && f.payload != []
    ensures Consistent(WithFragment(p, f))
  {
    hide TotalLength;
    LengthOfUpdate(p.fragments, f.fragmentIndex, f.payload);
  }

  lemma NewIsConsistent(f: Frame)
    ensures Consistent(NewPending(f))
  {
    hide TotalLength;
    LengthOfNothing(f.fragmentCount);
  }

  /** A frame that is not a duplicate finds its own place, still empty, in a consistent entry. */
  lemma PlaceIsFree(s: Channel, f: Frame)
    requires PendingOk(s) && !IsDuplicate(s, f) && f.fragmentIndex < f.fragmentCount
    ensures var i, opening := FindPending(s.pending, f.sequence), Opening(s.pending, f);
      && HasPlace(s.pending, f) && i < |opening| && opening[i].sequence == f.sequence
      && Consistent(opening[i]) && f.fragmentIndex < |opening[i].received| && !opening[i].received[f.fragmentIndex]
      && f.fragmentIndex < |opening[i].fragments|
      && DistinctEntries(opening)
      && forall j :: 0 <= j < |opening| && j != i ==> EntryOk(s.config, opening[j])
  {
    hide TotalLength, Queued;
    NewIsConsistent(f);
  }

  lemma EntryRemoved(c: Config, pending: seq<Pending>, i: nat)
    requires i < |pending| && DistinctEntries(pending)
    requires forall j :: 0 <= j < |pending| && j != i ==> EntryOk(c, pending[j])
    ensures EntriesOk(c, Without(pending, i))
  {
    hide EntryOk;
    var rest := Without(pending, i);
    assert forall j :: 0 <= j < |rest| ==> rest[j] == if j < i then pending[j] else pending[j + 1];
  }

  lemma EntryReplaced(c: Config, pending: seq<Pending>, i: nat, p: Pending)
    requires i < |pending| && DistinctEntries(pending)
    requires forall j :: 0 <= j < |pending| && j != i ==> EntryOk(c, pending[j])
    requires EntryOk(c, p) && p.sequence == pending[i].sequence
    ensures EntriesOk(c, pending[i := p])
  {
    hide EntryOk;
  }

  lemma FragmentKeepsPending(s: Channel, f: Frame)
    requires ValidConfig(s.config) && PendingOk(s) && !IsDuplicate(s, f)
    requires f.fragmentIndex < f.fragmentCount && f.payload != []
    ensures HasPlace(s.pending, f) && PendingOk(PushedFragment(s, f).0)
  {
    hide TotalLength, IsDuplicate, Joined, Checksum, Consistent, Complete, EntryOk, DistinctEntries, EntriesOk;
    hide Without, Opening, HasPlace;
    PlaceIsFree(s, f);
    var i, opening := FindPending(s.pending, f.sequence), Opening(s.pending, f);
    FragmentAdded(opening[i], f);
    var p := WithFragment(opening[i], f);
    EntryRemoved(s.config, opening, i);
    if p.totalBytes <= s.config.maxSampleBytes && !Complete(p.received) {
      EntryIfIncomplete(s.config, p);
      EntryReplaced(s.config, opening, i, p);
    }
  }

  lemma EntryIfIncomplete(c: Config, p: Pending)
    requires Consistent(p) && p.totalBytes <= c.maxSampleBytes && !Complete(p.received)
    ensures EntryOk(c, p)
  {
  }

  lemma PendingStaysOk(s: Channel, f: Frame)
    requires WellFormed(s) && PendingOk(s)
    ensures PendingOk(Pushed(s, f).0) && WellFormed(Pushed(s, f).0)
  {
    hide TotalLength, Joined, Checksum, Queued, Complete;
    if ValidFrame(s.config, f) && !IsDuplicate(s, f) {
      FragmentKeepsPending(Admitted(s, f), f);
    }
  }

  // ----- the queue and the logs -----

  function Sequences(samples: seq<Sample>): seq<U64> {
    seq(|samples|, i requires 0 <= i < |samples| => samples[i].sequence)
  }

  function SamplesOf(departed: seq<Departure>): seq<Sample> {
    seq(|departed|, i requires 0 <= i < |departed| => departed[i].sample)
  }

  function DroppedCount(departed: seq<Departure>): nat {
    if departed == [] then 0
    else DroppedCount(departed[..|departed| - 1]) + if departed[|departed| - 1].polled then 0 else 1
  }

  /** Between two entries of the same sequence lie at least `window` others. */
  predicate RepeatsFarApart(entered: seq<Sample>, window: nat) {
    forall i, j :: 0 <= i < j < |entered| && entered[i].sequence == entered[j].sequence ==> j - i > window
  }

  /**
   First in, first out and nothing lost: what entered is what left followed by what is queued. The
   completed list is the window of the last sequences entered, and none of them enters again.
   */
  predicate LogsAgree(run: Run) {
    var s := run.channel;
    && run.entered == SamplesOf(run.departed) + s.queue
    && |s.queue| <= s.config.queueDepth
    && s.counters.droppedSamples == DroppedCount(run.departed) % U64_MODULUS
    && s.completed == LastOf(Window(s.config), Sequences(run.entered))
    && RepeatsFarApart(run.entered, Window(s.config))
  }

  predicate Invariant(run: Run) {
    WellFormed(run.channel) && PendingOk(run.channel) && LogsAgree(run)
  }

  /** A push leaves queue and completed list alone, or enters one sample of its own sequence, not completed before. */
  predicate PushEffect(s: Channel, f: Frame, s': Channel, r: Receipt)
    requires ValidConfig(s.config)
  {
    && s'.config == s.config
    && if Enters(f, r) then
         && f.sequence !in s.completed
         && s'.queue != [] && s'.queue[|s'.queue| - 1].sequence == f.sequence
         && s'.queue == (if Full(s) then s.queue[1..] else s.queue) + [s'.queue[|s'.queue| - 1]]
         && s'.completed == Remembered(s.config, s.completed, f.sequence)
         && (r.status == DroppedOldest <==> Full(s))
         && s'.counters.droppedSamples ==
              (if Full(s) then Increment(s.counters.droppedSamples) else s.counters.droppedSamples)
       else
         && s'.queue == s.queue && s'.completed == s.completed && r.status != DroppedOldest
         && s'.counters.droppedSamples == s.counters.droppedSamples
  }

  lemma EnqueueEffect(s: Channel, s0: Channel, sample: Sample, status: ReceiptStatus, f: Frame)
    requires ValidConfig(s.config) && s0.config == s.config && f.sequence !in s.completed
    requires s0.queue == s.queue && s0.completed == s.completed
    requires s0.counters.droppedSamples == s.counters.droppedSamples
    requires sample.sequence == f.sequence
    requires status == Reassembled || (status == Accepted && f.fragmentCount == 1)
    ensures PushEffect(s, f, Enqueued(s0, sample, status).0, Enqueued(s0, sample, status).1)
  {
    hide Window, IsSafeIdentifier;
  }

  lemma EveryPushHasItsEffect(s: Channel, f: Frame)
    requires WellFormed(s) && PendingOk(s)
    ensures PushEffect(s, f, Pushed(s, f).0, Pushed(s, f).1)
  {
    hide TotalLength, Joined, Checksum, Queued, Complete, Remembered, EntryOk, Enqueued, IsSafeIdentifier, HasPlace;
    if ValidFrame(s.config, f) && Intact(f) && !IsStale(s, f) && !IsDuplicate(s, f) {
      var s0 := Admitted(s, f);
      if f.fragmentCount == 1 {
        EnqueueEffect(s, s0, WholeSample(f), Accepted, f);
      } else {
        PlaceIsFree(s0, f);
        var i, opening := FindPending(s.pending, f.sequence), Opening(s.pending, f);
        var p := WithFragment(opening[i], f);
        var s1 := s0.(
          pending := Without(opening, i),
          counters := s0.counters.(reassembledSamples := Increment(s0.counters.reassembledSamples)));
        EnqueueEffect(s, s1, Assembled(s.config, p), Reassembled, f);
      }
    }
  }

  // ----- the logs after each step -----

  predicate Refused(status: ReceiptStatus) {
    !status.Accepted? && !status.Reassembled? && !status.DroppedOldest?
  }

  /** The receipt says what happened: which counter moved, how full the queue is, and what was dropped. */
  predicate Tells(s: Channel, s': Channel, r: Receipt) {
    var n, n' := s.counters, s'.counters;
    && r.queuedSamples == |s'.queue|
    && n'.rejectedFrames == (if Refused(r.status) then Increment(n.rejectedFrames) else n.rejectedFrames)
    && n'.staleFrames == (if r.status == Stale then Increment(n.staleFrames) else n.staleFrames)
    && n'.duplicateFrames == (if r.status == Duplicate then Increment(n.duplicateFrames) else n.duplicateFrames)
    && n'.corruptFrames == (if r.status == Corrupt then Increment(n.corruptFrames) else n.corruptFrames)
    && r.droppedSequence == (if r.status == DroppedOldest && s.queue != [] then s.queue[0].sequence else 0)
    && (Refused(r.status) ==> s'.queue == s.queue && s'.completed == s.completed)
  }

  lemma EnqueueTells(s: Channel, sample: Sample, status: ReceiptStatus)
    requires 0 < s.config.queueDepth && (status == Accepted || status == Reassembled)
    ensures var (s', r) := Enqueued(s, sample, status);
      Tells(s, s', r) && r.sequence == sample.sequence
  {
    hide Remembered, Increment;
  }

  lemma RejectTells(s: Channel, status: ReceiptStatus, sequence: U64)
    requires Refused(status)
    ensures var (s', r) := Rejected(s, status, sequence);
      Tells(s, s', r) && r.sequence == sequence
  {
    hide Increment;
  }

  lemma FragmentTells(s: Channel, f: Frame)
    requires 0 < s.config.queueDepth && HasPlace(s.pending, f)
    ensures var (s', r) := PushedFragment(s, f);
      Tells(s, s', r) && r.sequence == f.sequence
  {
    hide Joined, Checksum, Complete, Increment, Tells, Enqueued, Rejected;
    var i, opening := FindPending(s.pending, f.sequence), Opening(s.pending, f);
    var p := WithFragment(opening[i], f);
    var s0 := s.(pending := Without(opening, i));
    var s1 := s0.(counters := s.counters.(reassembledSamples := Increment(s.counters.reassembledSamples)));
    RejectTells(s0, Malformed, p.sequence);
    EnqueueTells(s1, Assembled(s.config, p), Reassembled);
    TellsFrom(s, s0, Rejected(s0, Malformed, p.sequence));
    TellsFrom(s, s1, Enqueued(s1, Assembled(s.config, p), Reassembled));
    StoredTells(s, s.(pending := opening[i := p]), f.sequence);
  }

  lemma TellsFrom(s: Channel, s0: Channel, outcome: (Channel, Receipt))
    requires s0.queue == s.queue && s0.completed == s.completed
    requires s0.counters == s.counters.(
               acceptedFrames := s0.counters.acceptedFrames, reassembledSamples := s0.counters.reassembledSamples)
    requires Tells(s0, outcome.0, outcome.1)
    ensures Tells(s, outcome.0, outcome.1)
  {
    hide Increment;
  }

  lemma StoredTells(s: Channel, s': Channel, sequence: U64)
    requires s'.queue == s.queue && s'.completed == s.completed && s'.counters == s.counters
    ensures Tells(s, s', Receipt(Accepted, sequence, 0, |s.queue|))
  {
  }

  /** Of every frame pushed. */
  lemma ReceiptTells(s: Channel, f: Frame)
    requires WellFormed(s)
    ensures var (s', r) := Pushed(s, f);
      Tells(s, s', r) && r.sequence == f.sequence
  {
    hide Checksum, IsDuplicate, IsSafeIdentifier, Tells, Enqueued, PushedFragment, Rejected, Increment, Max, HasPlace;
    var later := s.(latestMonotonicMs := Max(s.latestMonotonicMs, f.monotonicMs));
    RejectTells(s, Malformed, f.sequence);
    RejectTells(s, Corrupt, f.sequence);
    RejectTells(s, Stale, f.sequence);
    RejectTells(later, Duplicate, f.sequence);
    TellsFrom(s, later, Rejected(later, Duplicate, f.sequence));
    if ValidFrame(s.config, f) && Intact(f) && !IsStale(s, f) && !IsDuplicate(s, f) {
      var s0 := Admitted(s, f);
      if f.fragmentCount == 1 {
        EnqueueTells(s0, WholeSample(f), Accepted);
        TellsFrom(s, s0, Enqueued(s0, WholeSample(f), Accepted));
      } else {
        HasPlaceIfNew(s, f);
        FragmentTells(s0, f);
        TellsFrom(s, s0, PushedFragment(s0, f));
      }
    }
  }

  lemma HasPlaceIfNew(s: Channel, f: Frame)
    requires WellFormed(s) && ValidFrame(s.config, f) && !IsDuplicate(s, f)
    ensures HasPlace(s.pending, f)
  {
  }

  lemma WindowSlides(c: Config, entered: seq<Sample>, completed: seq<U64>, sample: Sample)
    requires completed == LastOf(Window(c), Sequences(entered))
    ensures Remembered(c, completed, sample.sequence) == LastOf(Window(c), Sequences(entered + [sample]))
  {
    hide Window;
    assert Sequences(entered + [sample]) == Sequences(entered) + [sample.sequence];
  }

  lemma RepeatsStayFarApart(entered: seq<Sample>, window: nat, sample: Sample)
    requires RepeatsFarApart(entered, window) && sample.sequence !in LastOf(window, Sequences(entered))
    ensures RepeatsFarApart(entered + [sample], window)
  {
    forall i | 0 <= i < |entered| && entered[i].sequence == sample.sequence
      ensures |entered| - i > window
    {
      if |entered| - i <= window {
        RecentIsRemembered(entered, window, i);
      }
    }
  }

  lemma RecentIsRemembered(entered: seq<Sample>, window: nat, i: nat)
    requires i < |entered| && |entered| - i <= window
    ensures entered[i].sequence in LastOf(window, Sequences(entered))
  {
    var all, recent := Sequences(entered), LastOf(window, Sequences(entered));
    assert all[i] == recent[i - (|all| - |recent|)];
  }

  lemma SampleEnters(run: Run, s': Channel, f: Frame, r: Receipt)
    requires ValidConfig(run.channel.config) && LogsAgree(run) && PushEffect(run.channel, f, s', r) && Enters(f, r)
    ensures var sample, dropped := s'.queue[|s'.queue| - 1],
          if Full(run.channel) then [Departure(run.channel.queue[0], false)] else [];
      LogsAgree(Run(s', run.entered + [sample], run.departed + dropped))
  {
    hide IsSafeIdentifier, Window, Sequences, RepeatsFarApart, Remembered;
    var s, sample := run.channel, s'.queue[|s'.queue| - 1];
    WindowSlides(s.config, run.entered, s.completed, sample);
    RepeatsStayFarApart(run.entered, Window(s.config), sample);
    if Full(s) {
      OneLeaves(run.departed, s.queue, false);
      assert run.entered + [sample] == SamplesOf(run.departed + [Departure(s.queue[0], false)]) + s'.queue;
    } else {
      assert run.departed + [] == run.departed;
      assert run.entered + [sample] == SamplesOf(run.departed) + s'.queue;
    }
  }

  lemma OneLeaves(departed: seq<Departure>, queue: seq<Sample>, polled: bool)
    requires queue != []
    ensures SamplesOf(departed) + queue == SamplesOf(departed + [Departure(queue[0], polled)]) + queue[1..]
    ensures DroppedCount(departed + [Departure(queue[0], polled)]) == DroppedCount(departed) + if polled then 0 else 1
  {
    var longer := departed + [Departure(queue[0], polled)];
    assert longer[..|departed|] == departed;
    assert SamplesOf(longer) == SamplesOf(departed) + [queue[0]];
  }

  lemma PushKeepsInvariant(run: Run, f: Frame)
    requires Invariant(run)
    ensures Invariant(Step(run, Push(f)))
  {
    hide Pushed, PendingOk, LogsAgree, Window, IsSafeIdentifier;
    PendingStaysOk(run.channel, f);
    EveryPushHasItsEffect(run.channel, f);
    var (s', r) := Pushed(run.channel, f);
    if Enters(f, r) {
      SampleEnters(run, s', f, r);
    } else {
      NothingEnters(run, s', f, r);
    }
  }

  lemma NothingEnters(run: Run, s': Channel, f: Frame, r: Receipt)
    requires ValidConfig(run.channel.config) && LogsAgree(run) && PushEffect(run.channel, f, s', r) && !Enters(f, r)
    ensures LogsAgree(Run(s', run.entered + [], run.departed + []))
  {
    hide IsSafeIdentifier, Window, Sequences, RepeatsFarApart, SamplesOf, DroppedCount;
    assert run.entered + [] == run.entered && run.departed + [] == run.departed;
  }

  lemma PollKeepsInvariant(run: Run)
    requires Invariant(run)
    ensures Invariant(Step(run, Poll))
  {
    hide Window, Sequences, RepeatsFarApart, IsSafeIdentifier, EntryOk, SamplesOf, DroppedCount;
    if run.channel.queue == [] {
      assert run.departed + [] == run.departed;
    } else {
      OneLeaves(run.departed, run.channel.queue, true);
    }
  }

  // ----- runs -----

  ghost predicate IsRun(states: seq<Run>, actions: seq<Action>) {
    && |states| == |actions| + 1
    && forall i :: 0 <= i < |actions| ==>
         WellFormed(states[i].channel) && states[i + 1] == Step(states[i], actions[i])
  }

  lemma {:induction false} InvariantHolds(c: Config, states: seq<Run>, actions: seq<Action>)
    requires ValidConfig(c) && IsRun(states, actions) && states[0] == Run(Opened(c), [], [])
    ensures forall i :: 0 <= i < |states| ==> Invariant(states[i]) && states[i].channel.config == c
    decreases |actions|
  {
    hide Step, ValidConfig, Invariant, WellFormed;
    if actions == [] {
      OpenedIsInvariant(c);
    } else {
      var n := |actions| - 1;
      InvariantHolds(c, states[..n + 1], actions[..n]);
      assert Invariant(states[..n + 1][n]);
      StepKeepsInvariant(states[n], actions[n]);
    }
  }

  lemma StepKeepsInvariant(run: Run, a: Action)
    requires Invariant(run)
    ensures Invariant(Step(run, a)) && Step(run, a).channel.config == run.channel.config
  {
    hide LogsAgree, ValidConfig, PendingOk, Pushed;
    match a
    case Push(f) =>
      PushKeepsInvariant(run, f);
      EveryPushHasItsEffect(run.channel, f);
    case Poll => PollKeepsInvariant(run);
  }

  lemma OpenedIsInvariant(c: Config)
    requires ValidConfig(c)
    ensures Invariant(Run(Opened(c), [], []))
  {
    hide IsSafeIdentifier, Increment, Consistent, Complete, Window;
    assert Sequences([]) == [] && SamplesOf([]) == [];
  }

  // ----- the queue and the completed list -----

  /** The sum of queue depth and fragment limit fits 64 bits. */
  predicate WindowDoesNotWrap(c: Config) {
    c.queueDepth + c.maxFragmentsPerSample as int < U64_MODULUS
  }

  predicate AllDistinct(s: seq<U64>) {
    forall i, j :: 0 <= i < j < |s| ==> s[i] != s[j]
  }

  /** In every reachable state the completed list has no repetitions. */
  lemma CompletedIsDistinct(run: Run)
    requires Invariant(run)
    ensures AllDistinct(run.channel.completed)
  {
    hide PendingOk, WellFormed, Window;
    var s, all := run.channel, Sequences(run.entered);
    var from := |all| - |s.completed|;
    assert forall i :: 0 <= i < |s.completed| ==> s.completed[i] == run.entered[from + i].sequence;
  }

  /** Without wrap the queue is the end of the completed list, so a separate scan of the queue finds nothing new. */
  lemma QueueEndsCompleted(run: Run, f: Frame)
    requires Invariant(run) && WindowDoesNotWrap(run.channel.config)
    ensures var s := run.channel;
      && |s.queue| <= |s.completed|
      && Sequences(s.queue) == s.completed[|s.completed| - |s.queue|..]
      && (Queued(s.queue, f.sequence) ==> f.sequence in s.completed)
  {
    hide PendingOk, WellFormed, RepeatsFarApart, SamplesOf, DroppedCount, Sequences;
    var s := run.channel;
    WindowCoversQueue(s.config);
    SequencesConcat(SamplesOf(run.departed), s.queue);
    EndOfEnd(Sequences(SamplesOf(run.departed)), Sequences(s.queue), Window(s.config));
    if Queued(s.queue, f.sequence) {
      QueuedIsListed(s.queue, f.sequence);
    }
  }

  lemma WindowCoversQueue(c: Config)
    requires WindowDoesNotWrap(c)
    ensures c.queueDepth <= Window(c)
  {
  }

  lemma SequencesConcat(a: seq<Sample>, b: seq<Sample>)
    ensures Sequences(a + b) == Sequences(a) + Sequences(b) && |Sequences(b)| == |b|
  {
  }

  lemma EndOfEnd(front: seq<U64>, back: seq<U64>, n: nat)
    requires |back| <= n
    ensures var last := LastOf(n, front + back);
      && |back| <= |last| && last[|last| - |back|..] == back
      && forall x <- back :: x in last
  {
    var last := LastOf(n, front + back);
    assert last[|last| - |back|..] == back;
    assert forall x <- last[|last| - |back|..] :: x in last;
  }

  lemma QueuedIsListed(queue: seq<Sample>, sequence: U64)
    requires Queued(queue, sequence)
    ensures sequence in Sequences(queue)
  {
    var i :| 0 <= i < |queue| && queue[i].sequence == sequence;
    assert Sequences(queue)[i] == sequence;
  }

  // ----- when the window wraps -----

  function ProbeFrame(c: Config, k: U64): Frame {
    Frame(c.channelId, k, 0, 1, 0, 0, [0])
  }

  /** The run that pushes `k` whole samples numbered from 1. */
  function Probe(c: Config, k: U64): (run: Run)
    requires ValidConfig(c)
    ensures Invariant(run) && run.channel.config == c
    decreases k
  {
    if k == 0 then
      OpenedIsInvariant(c);
      Run(Opened(c), [], [])
    else
      StepKeepsInvariant(Probe(c, k - 1), Push(ProbeFrame(c, k)));
      Step(Probe(c, k - 1), Push(ProbeFrame(c, k)))
  }

  predicate Numbered(queue: seq<Sample>) {
    forall i :: 0 <= i < |queue| ==> queue[i].sequence == i + 1
  }

  predicate Probed(run: Run, k: nat) {
    && |run.channel.queue| == k && Numbered(run.channel.queue)
    && run.channel.pending == [] && run.departed == [] && run.channel.latestMonotonicMs == 0
  }

  lemma NotSeenBefore(run: Run, k: U64)
    requires Invariant(run) && Probed(run, k) && k + 1 < U64_MODULUS
    ensures !IsDuplicate(run.channel, ProbeFrame(run.channel.config, k + 1))
  {
    hide Window, RepeatsFarApart, PendingOk, WellFormed;
    var s := run.channel;
    assert run.entered == s.queue;
    forall x <- s.completed
      ensures x <= k
    {
      assert x in Sequences(run.entered);
    }
  }

  lemma {:induction false} ProbeFillsQueue(c: Config, k: U64)
    requires ValidConfig(c) && k <= c.queueDepth
    ensures Probed(Probe(c, k), k)
    decreases k
  {
    hide Invariant, ValidConfig, IsDuplicate, Step, Probed;
    if k == 0 {
      NothingProbed(c);
    } else {
      ProbeFillsQueue(c, k - 1);
      NotSeenBefore(Probe(c, k - 1), k - 1);
      ProbeStep(Probe(c, k - 1), k - 1);
    }
  }

  lemma NothingProbed(c: Config)
    ensures Probed(Run(Opened(c), [], []), 0)
  {
  }

  lemma ProbeStep(run: Run, k: U64)
    requires Invariant(run) && Probed(run, k) && k < run.channel.config.queueDepth
    requires !IsDuplicate(run.channel, ProbeFrame(run.channel.config, k + 1))
    ensures Probed(Step(run, Push(ProbeFrame(run.channel.config, k + 1))), k + 1)
  {
    hide Checksum, Window, IsDuplicate, LogsAgree, PendingOk, IsSafeIdentifier;
    assert run.departed + [] == run.departed;
  }

  /** With a window that wraps, some run leaves a sample in the queue whose number is no longer remembered. */
  lemma WrappedWindowForgets(c: Config)
    requires ValidConfig(c) && !WindowDoesNotWrap(c)
    ensures Window(c) + 1 <= c.queueDepth
    ensures var s := Probe(c, Window(c) + 1).channel;
      Queued(s.queue, 1) && 1 !in s.completed
  {
    hide RepeatsFarApart, PendingOk, ValidConfig, Window, Checksum, Probe;
    WrappedWindow(c);
    var run := Probe(c, Window(c) + 1);
    ProbeFillsQueue(c, Window(c) + 1);
    assert run.entered == run.channel.queue;
    FirstIsForgotten(run.channel.queue, Window(c));
  }

  lemma FirstIsForgotten(queue: seq<Sample>, n: nat)
    requires |queue| == n + 1 && Numbered(queue)
    ensures Queued(queue, 1) && 1 !in LastOf(n, Sequences(queue))
  {
    assert queue[0].sequence == 1;
    var last := LastOf(n, Sequences(queue));
    assert forall i :: 0 <= i < |last| ==> last[i] == i + 2;
  }

  lemma WrappedWindow(c: Config)
    requires ValidConfig(c) && !WindowDoesNotWrap(c)
    ensures Window(c) == c.queueDepth + c.maxFragmentsPerSample as int - U64_MODULUS
    ensures Window(c) + 1 <= c.queueDepth
  {
  }
}
