/** Fragments of one sample, pushed in any order among anything else, come out as one sample. */
module RawDataStreamReassembly {
  import opened Bytes
  import opened StreamChecksum
  import opened RawDataStream
  import opened RawDataStreamRuns

  /** A sample cut into at least two fragments that the channel's limits allow. */
  predicate Cut(c: Config, parts: seq<seq<Byte>>) {
    && ValidConfig(c) && c.allowFragmentReassembly
    && 2 <= |parts| <= c.maxFragmentsPerSample
    && (forall i :: 0 <= i < |parts| ==> parts[i] != [] && |parts[i]| <= c.maxFramePayloadBytes)
    && TotalLength(parts) <= c.maxSampleBytes
  }

  /** The frame carries one of the fragments of sequence `q`. */
  predicate Piece(c: Config, q: U64, parts: seq<seq<Byte>>, f: Frame) {
    && ValidFrame(c, f) && Intact(f)
    && f.sequence == q && f.fragmentCount == |parts| && f.fragmentIndex < |parts|
    && f.payload == parts[f.fragmentIndex]
  }

  /** The entry holds exactly the fragments seen so far. */
  ghost predicate Holds(p: Pending, q: U64, parts: seq<seq<Byte>>, seen: set<nat>) {
    && p.sequence == q && |p.fragments| == |p.received| == |parts|
    && forall k: nat :: k < |parts| ==>
         (p.received[k] <==> k in seen) && p.fragments[k] == if k in seen then parts[k] else []
  }

  ghost predicate NoEntry(pending: seq<Pending>, q: U64) {
    forall i :: 0 <= i < |pending| ==> pending[i].sequence != q
  }

  ghost predicate HasEntry(pending: seq<Pending>, q: U64, parts: seq<seq<Byte>>, seen: set<nat>) {
    exists i :: 0 <= i < |pending| && Holds(pending[i], q, parts, seen)
  }

  ghost predicate Unfinished(s: Channel, q: U64) {
    q !in s.completed && !Queued(s.queue, q)
  }

  /** The channel has seen these fragments of `q`, and has not finished it. */
  ghost predicate Gathered(s: Channel, q: U64, parts: seq<seq<Byte>>, seen: set<nat>) {
    && Unfinished(s, q)
    && (forall k <- seen :: k < |parts|)
    && if seen == {} then NoEntry(s.pending, q) else HasEntry(s.pending, q, parts, seen)
  }

  ghost predicate AllSeen(parts: seq<seq<Byte>>, seen: set<nat>) {
    forall k: nat :: k < |parts| ==> k in seen
  }

  // ----- other frames and polls do not disturb the entry -----

  lemma UntouchedByOthers(pending: seq<Pending>, other: seq<Pending>, q: U64, parts: seq<seq<Byte>>, seen: set<nat>)
    requires forall p: Pending :: p.sequence == q ==> (p in other <==> p in pending)
    ensures NoEntry(pending, q) ==> NoEntry(other, q)
    ensures HasEntry(pending, q, parts, seen) ==> HasEntry(other, q, parts, seen)
  {
    if HasEntry(pending, q, parts, seen) {
      var i :| 0 <= i < |pending| && Holds(pending[i], q, parts, seen);
      assert pending[i] in other;
    }
    if NoEntry(pending, q) {
      assert forall i :: 0 <= i < |other| ==> other[i] in other;
    }
  }

  lemma OthersKeepEntries(s: Channel, f: Frame, q: U64)
    requires WellFormed(s) && PendingOk(s) && f.sequence != q
    ensures forall p: Pending :: p.sequence == q ==> (p in Pushed(s, f).0.pending <==> p in s.pending)
  {
    hide EntryOk, Checksum, Joined, Queued, Window, IsSafeIdentifier, DistinctEntries;
    if ValidFrame(s.config, f) && Intact(f) && !IsStale(s, f) && !IsDuplicate(s, f) && f.fragmentCount != 1 {
      var s0 := Admitted(s, f);
      PlaceIsFree(s0, f);
      var i, opening := FindPending(s.pending, f.sequence), Opening(s.pending, f);
      ChangedEntry(opening, i, WithFragment(opening[i], f), q);
    }
  }

  lemma ChangedEntry(opening: seq<Pending>, i: nat, p: Pending, q: U64)
    requires i < |opening| && opening[i].sequence != q && p.sequence != q
    ensures forall x: Pending :: x.sequence == q ==> (x in Without(opening, i) <==> x in opening)
    ensures forall x: Pending :: x.sequence == q ==> (x in opening[i := p] <==> x in opening)
  {
    forall x: Pending | x.sequence == q && x in opening
      ensures x in Without(opening, i) && x in opening[i := p]
    {
      var j :| 0 <= j < |opening| && opening[j] == x;
      assert opening[i := p][j] == x;
      assert Without(opening, i)[if j < i then j else j - 1] == x;
    }
  }

  lemma OthersStayUnfinished(s: Channel, f: Frame, q: U64)
    requires WellFormed(s) && PendingOk(s) && f.sequence != q && Unfinished(s, q)
    ensures Unfinished(Pushed(s, f).0, q)
  {
    hide Pushed, PendingOk, Window, IsSafeIdentifier;
    EveryPushHasItsEffect(s, f);
    var (s', r) := Pushed(s, f);
    assert forall x <- s'.completed :: x in s.completed || x == f.sequence;
  }

  lemma OtherFrame(s: Channel, f: Frame, q: U64, parts: seq<seq<Byte>>, seen: set<nat>)
    requires WellFormed(s) && PendingOk(s) && f.sequence != q && Gathered(s, q, parts, seen)
    ensures Gathered(Pushed(s, f).0, q, parts, seen)
  {
    hide Pushed, PendingOk, NoEntry, HasEntry, Unfinished;
    OthersStayUnfinished(s, f, q);
    OthersKeepEntries(s, f, q);
    UntouchedByOthers(s.pending, Pushed(s, f).0.pending, q, parts, seen);
  }

  lemma PollKeepsGathered(s: Channel, q: U64, parts: seq<seq<Byte>>, seen: set<nat>)
    requires Gathered(s, q, parts, seen)
    ensures Gathered(Polled(s).0, q, parts, seen)
  {
    hide NoEntry, HasEntry;
  }

  // ----- the pieces themselves -----

  lemma EntryIsFound(s: Channel, q: U64, parts: seq<seq<Byte>>, seen: set<nat>)
    requires PendingOk(s) && HasEntry(s.pending, q, parts, seen)
    ensures var i := FindPending(s.pending, q);
      i < |s.pending| && Holds(s.pending[i], q, parts, seen)
  {
    hide EntryOk;
    var i :| 0 <= i < |s.pending| && Holds(s.pending[i], q, parts, seen);
    var j := FindPending(s.pending, q);
    assert s.pending[i].sequence == q;
  }

  lemma NoEntryIsFound(s: Channel, q: U64)
    requires NoEntry(s.pending, q)
    ensures FindPending(s.pending, q) == |s.pending|
  {
  }

  /** A piece seen before is a duplicate; one not seen before is not. */
  lemma PieceIsDuplicateIfSeen(s: Channel, q: U64, parts: seq<seq<Byte>>, seen: set<nat>, f: Frame)
    requires PendingOk(s) && Gathered(s, q, parts, seen) && f.sequence == q && f.fragmentIndex < |parts|
    ensures IsDuplicate(s, f) <==> f.fragmentIndex as nat in seen
  {
    hide PendingOk, Queued;
    if seen == {} {
      NoEntryIsFound(s, q);
    } else {
      EntryIsFound(s, q, parts, seen);
    }
  }

  /** The entry a new piece goes into holds what was seen; with the piece it holds one more. */
  lemma PieceGoesIn(s: Channel, q: U64, parts: seq<seq<Byte>>, seen: set<nat>, f: Frame)
    requires PendingOk(s) && Gathered(s, q, parts, seen) && Piece(s.config, q, parts, f)
    requires f.fragmentIndex as nat !in seen
    ensures var i, opening := FindPending(s.pending, q), Opening(s.pending, f);
      && HasPlace(s.pending, f) && i < |opening| && Consistent(opening[i]) && !opening[i].received[f.fragmentIndex]
      && Holds(WithFragment(opening[i], f), q, parts, seen + {f.fragmentIndex as nat})
      && Consistent(WithFragment(opening[i], f))
  {
    hide EntryOk, Queued, Checksum, TotalLength, IsDuplicate, DistinctEntries;
    PieceIsDuplicateIfSeen(s, q, parts, seen, f);
    PlaceIsFree(s, f);
    if seen == {} {
      NoEntryIsFound(s, q);
    } else {
      EntryIsFound(s, q, parts, seen);
    }
    FragmentAdded(Opening(s.pending, f)[FindPending(s.pending, q)], f);
  }

  lemma {:induction false} HeldFits(fragments: seq<seq<Byte>>, parts: seq<seq<Byte>>)
    requires |fragments| == |parts|
    requires forall k :: 0 <= k < |parts| ==> fragments[k] == parts[k] || fragments[k] == []
    ensures TotalLength(fragments) <= TotalLength(parts)
    decreases |parts|
  {
    if parts != [] {
      HeldFits(fragments[..|parts| - 1], parts[..|parts| - 1]);
    }
  }

  lemma CompleteWhenAllSeen(p: Pending, q: U64, parts: seq<seq<Byte>>, seen: set<nat>)
    requires Holds(p, q, parts, seen)
    ensures Complete(p.received) <==> AllSeen(parts, seen)
    ensures AllSeen(parts, seen) ==> p.fragments == parts
    ensures TotalLength(p.fragments) <= TotalLength(parts)
  {
    hide TotalLength;
    HeldFits(p.fragments, parts);
    assert forall k :: 0 <= k < |parts| ==> (p.received[k] <==> k as nat in seen);
  }

  /** The channel after a new piece that does not complete the sample. */
  lemma PieceIsKept(s: Channel, q: U64, parts: seq<seq<Byte>>, seen: set<nat>, f: Frame)
    requires WellFormed(s) && PendingOk(s) && Gathered(s, q, parts, seen) && Cut(s.config, parts)
    requires Piece(s.config, q, parts, f) && !IsStale(s, f) && f.fragmentIndex as nat !in seen
    requires !AllSeen(parts, seen + {f.fragmentIndex as nat})
    ensures var (s', r) := Pushed(s, f);
      Gathered(s', q, parts, seen + {f.fragmentIndex as nat}) && s'.queue == s.queue && r.status == Accepted
  {
    hide EntryOk, Queued, Checksum, TotalLength, IsDuplicate, Holds, Complete, AllSeen, Joined, DistinctEntries;
    hide IsSafeIdentifier;
    PieceIsDuplicateIfSeen(s, q, parts, seen, f);
    PieceGoesIn(s, q, parts, seen, f);
    var i, opening, more := FindPending(s.pending, q), Opening(s.pending, f), seen + {f.fragmentIndex as nat};
    var p := WithFragment(opening[i], f);
    CompleteWhenAllSeen(p, q, parts, more);
    assert Holds(opening[i := p][i], q, parts, more);
  }

  /** The last piece hands the joined sample to the queue. */
  lemma LastPieceCompletes(s: Channel, q: U64, parts: seq<seq<Byte>>, seen: set<nat>, f: Frame)
    requires WellFormed(s) && PendingOk(s) && Gathered(s, q, parts, seen) && Cut(s.config, parts)
    requires Piece(s.config, q, parts, f) && !IsStale(s, f) && f.fragmentIndex as nat !in seen
    requires AllSeen(parts, seen + {f.fragmentIndex as nat})
    ensures var (s', r) := Pushed(s, f);
      if Full(s) && s.config.bufferPolicy.RejectNewest? then
        r.status == BackpressureRejected && s'.queue == s.queue
      else
        && Enters(f, r) && s'.queue != []
        && s'.queue == (if Full(s) then s.queue[1..] else s.queue) + [s'.queue[|s'.queue| - 1]]
        && IsWhole(s'.queue[|s'.queue| - 1], s.config, q, parts)
  {
    hide EntryOk, Queued, Checksum, TotalLength, IsDuplicate, Holds, Complete, AllSeen, Joined, DistinctEntries;
    hide IsSafeIdentifier;
    hide Without, Window;
    PieceIsDuplicateIfSeen(s, q, parts, seen, f);
    PieceGoesIn(s, q, parts, seen, f);
    var i, opening, more := FindPending(s.pending, q), Opening(s.pending, f), seen + {f.fragmentIndex as nat};
    CompleteWhenAllSeen(WithFragment(opening[i], f), q, parts, more);
  }

  /** The sample of sequence `q` with the fragments joined in index order. */
  predicate IsWhole(sample: Sample, c: Config, q: U64, parts: seq<seq<Byte>>) {
    && sample.sequence == q && sample.channelId == c.channelId
    && sample.payload == Joined(parts) && sample.payloadChecksum == Checksum(Joined(parts))
    && sample.fragmentCount == |parts| % 0x1_0000
  }

  // ----- whole runs -----

  ghost function RunFrom(run: Run, actions: seq<Action>): (end: Run)
    requires Invariant(run)
    ensures Invariant(end) && end.channel.config == run.channel.config
    decreases |actions|
  {
    if actions == [] then run
    else
      StepKeepsInvariant(run, actions[0]);
      RunFrom(Step(run, actions[0]), actions[1..])
  }

  predicate Concerns(q: U64, a: Action) {
    a.Push? && a.frame.sequence == q
  }

  /** Every frame of sequence `q` in the run is one of its pieces and is not stale when it arrives. */
  ghost predicate Gathering(run: Run, q: U64, parts: seq<seq<Byte>>, actions: seq<Action>)
    requires Invariant(run)
    decreases |actions|
  {
    actions == [] ||
    (&& (Concerns(q, actions[0]) ==>
           Piece(run.channel.config, q, parts, actions[0].frame) && !IsStale(run.channel, actions[0].frame))
     && (StepKeepsInvariant(run, actions[0]); Gathering(Step(run, actions[0]), q, parts, actions[1..])))
  }

  function SeenAfter(q: U64, seen: set<nat>, actions: seq<Action>): set<nat>
    decreases |actions|
  {
    if actions == [] then seen
    else
      SeenAfter(
        q, if Concerns(q, actions[0]) then seen + {actions[0].frame.fragmentIndex as nat} else seen, actions[1..])
  }

  lemma {:induction false} SeenGrows(q: U64, seen: set<nat>, actions: seq<Action>)
    ensures seen <= SeenAfter(q, seen, actions)
    decreases |actions|
  {
    if actions != [] {
      SeenGrows(
        q, if Concerns(q, actions[0]) then seen + {actions[0].frame.fragmentIndex as nat} else seen, actions[1..]);
    }
  }

  /** What entered since `from` contains no sample of sequence `q`. */
  ghost predicate NoneEntered(q: U64, from: Run, to: Run) {
    && |from.entered| <= |to.entered|
    && to.entered[..|from.entered|] == from.entered
    && forall i :: |from.entered| <= i < |to.entered| ==> to.entered[i].sequence != q
  }

  lemma NoneEnteredTwice(q: U64, a: Run, b: Run, c: Run)
    requires NoneEntered(q, a, b) && NoneEntered(q, b, c)
    ensures NoneEntered(q, a, c)
  {
    assert c.entered[..|a.entered|] == c.entered[..|b.entered|][..|a.entered|];
    forall i | |a.entered| <= i < |b.entered|
      ensures c.entered[i].sequence != q
    {
      assert c.entered[..|b.entered|][i] == c.entered[i];
    }
  }

  /** One step of the run, before the sample is complete. */
  lemma GatherStep(run: Run, q: U64, parts: seq<seq<Byte>>, seen: set<nat>, a: Action)
    requires Invariant(run) && Cut(run.channel.config, parts) && Gathered(run.channel, q, parts, seen)
    requires Concerns(q, a) ==> Piece(run.channel.config, q, parts, a.frame) && !IsStale(run.channel, a.frame)
    requires Concerns(q, a) ==> !AllSeen(parts, seen + {a.frame.fragmentIndex as nat})
    ensures var more := if Concerns(q, a) then seen + {a.frame.fragmentIndex as nat} else seen;
      Gathered(Step(run, a).channel, q, parts, more) && NoneEntered(q, run, Step(run, a))
  {
    hide Pushed, Cut, Gathered, AllSeen, PendingOk, LogsAgree, Window;
    var s := run.channel;
    assert run.entered + [] == run.entered;
    match a
    case Poll => PollKeepsGathered(s, q, parts, seen);
    case Push(f) =>
      EveryPushHasItsEffect(s, f);
      if f.sequence != q {
        OtherFrame(s, f, q, parts, seen);
      } else {
        PieceIsKeptOrDuplicate(s, q, parts, seen, f);
      }
  }

  lemma PieceIsKeptOrDuplicate(s: Channel, q: U64, parts: seq<seq<Byte>>, seen: set<nat>, f: Frame)
    requires WellFormed(s) && PendingOk(s) && Gathered(s, q, parts, seen) && Cut(s.config, parts)
    requires Piece(s.config, q, parts, f) && !IsStale(s, f)
    requires !AllSeen(parts, seen + {f.fragmentIndex as nat})
    ensures Gathered(Pushed(s, f).0, q, parts, seen + {f.fragmentIndex as nat}) && !Enters(f, Pushed(s, f).1)
  {
    hide AllSeen, PendingOk, Checksum, NoEntry, HasEntry, IsDuplicate, IsSafeIdentifier;
    if f.fragmentIndex as nat in seen {
      hide Unfinished;
      PieceIsDuplicateIfSeen(s, q, parts, seen, f);
      assert seen + {f.fragmentIndex as nat} == seen;
    } else {
      hide Unfinished, Pushed;
      PieceIsKept(s, q, parts, seen, f);
    }
  }

  lemma {:induction false} GatherAll(run: Run, q: U64, parts: seq<seq<Byte>>, seen: set<nat>, actions: seq<Action>)
    requires Invariant(run) && Cut(run.channel.config, parts) && Gathered(run.channel, q, parts, seen)
    requires Gathering(run, q, parts, actions) && !AllSeen(parts, SeenAfter(q, seen, actions))
    ensures var end := RunFrom(run, actions);
      Gathered(end.channel, q, parts, SeenAfter(q, seen, actions)) && NoneEntered(q, run, end)
    decreases |actions|
  {
    hide Step, PendingOk, LogsAgree, Cut, Gathered, Piece, NoneEntered, IsStale;
    if actions == [] {
      NothingEnteredYet(q, run);
    } else {
      var a := actions[0];
      var more := if Concerns(q, a) then seen + {a.frame.fragmentIndex as nat} else seen;
      SeenGrows(q, more, actions[1..]);
      StepKeepsInvariant(run, a);
      GatherStep(run, q, parts, seen, a);
      GatherAll(Step(run, a), q, parts, more, actions[1..]);
      NoneEnteredTwice(q, run, Step(run, a), RunFrom(Step(run, a), actions[1..]));
    }
  }

  lemma AlreadySeen(seen: set<nat>, k: nat)
    requires k in seen
    ensures seen + {k} == seen
  {
  }

  lemma NothingEnteredYet(q: U64, run: Run)
    ensures NoneEntered(q, run, run)
  {
  }

  /**
   The fragments of a fresh sequence, pushed in any order, any number of times and among any other frames
   and polls: exactly one sample of the sequence enters the queue, when the last missing fragment arrives,
   and its payload is the fragments joined in index order.
   */
  lemma ReassembledInAnyOrder(run: Run, q: U64, parts: seq<seq<Byte>>, actions: seq<Action>, last: Frame)
    requires Invariant(run) && Cut(run.channel.config, parts)
    requires Unfinished(run.channel, q) && NoEntry(run.channel.pending, q)
    requires Gathering(run, q, parts, actions)
    requires Piece(run.channel.config, q, parts, last) && !IsStale(RunFrom(run, actions).channel, last)
    requires var seen := SeenAfter(q, {}, actions);
      !AllSeen(parts, seen) && AllSeen(parts, seen + {last.fragmentIndex as nat})
    requires Full(RunFrom(run, actions).channel) ==> run.channel.config.bufferPolicy.DropOldest?
    ensures var mid := RunFrom(run, actions);
      var end := Step(mid, Push(last));
      && NoneEntered(q, run, mid)
      && |end.entered| == |mid.entered| + 1 && end.entered[..|mid.entered|] == mid.entered
      && IsWhole(end.entered[|mid.entered|], run.channel.config, q, parts)
      && end.channel.queue != [] && end.channel.queue[|end.channel.queue| - 1] == end.entered[|mid.entered|]
  {
    hide Pushed, Cut, Piece, AllSeen, PendingOk, LogsAgree, Window, Gathering, RunFrom, NoneEntered, IsStale, IsWhole;
    hide Full, SeenAfter;
    GatherAll(run, q, parts, {}, actions);
    var mid, seen := RunFrom(run, actions), SeenAfter(q, {}, actions);
    if last.fragmentIndex as nat in seen {
      AlreadySeen(seen, last.fragmentIndex);
    }
    LastPieceCompletes(mid.channel, q, parts, seen, last);
  }

  // ----- corrupted frames -----

  /** A frame sent with its checksum, if that is not zero, is rejected as corrupt when one payload octet is wrong. */
  lemma WrongOctetIsCorrupt(s: Channel, f: Frame, at: nat, wrong: Byte)
    requires WellFormed(s) && ValidFrame(s.config, f) && at < |f.payload| && wrong != f.payload[at]
    requires f.payloadChecksum == Checksum(f.payload) != 0
    ensures var (s', r) := Pushed(s, f.(payload := f.payload[at := wrong]));
      r.status == Corrupt && s'.queue == s.queue && s'.pending == s.pending && s'.completed == s.completed
  {
    OneOctetShows(FNV_OFFSET, f.payload, at, wrong);
    hide ChecksumFrom, IsSafeIdentifier;
  }
}
