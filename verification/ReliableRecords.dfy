/**
 What the reader knows of its writers, told from the log of what it accepted and when: which writers have
 a record, what the record says, and which expire.
 */
module ReliableRecords {
  import opened Bytes
  import opened Ascending
  import opened RtpsMessage
  import opened RtpsRoundTrip
  import opened ServiceTypes
  import opened DdsTypes
  import opened SampleEnvelope
  import opened ReliableRuns
  import R = ReliableReader

  // ----- the log -----

  /** A writer, by the participant it belongs to and its own id. */
  datatype Writer = Writer(prefix: GuidPrefix, entity: EntityId)

  /** A sample of the writer was accepted, or the writers were looked through for expired ones. */
  datatype Entry = Heard(writer: Writer, number: U64, atMs: U64) | Swept(nowMs: U64)

  function WriterOf(pair: EndpointMatch): Writer {
    Writer(pair.remoteEndpoint.participantGuidPrefix, pair.remoteEndpoint.endpointId)
  }

  /** A delivery that makes the list of accepted samples longer is an acceptance, at the time of the delivery. */
  function EntriesOf(s: System, a: Action): seq<Entry>
    requires IsAscending(s.reader.received)
  {
    match a
    case Deliver(pair, datagram, nowMs) =>
      var accepted := Step(s, a).accepted;
      if |accepted| > |s.accepted| then [Heard(WriterOf(pair), accepted[|s.accepted|].sequence, nowMs)] else []
    case Expire(nowMs) => if ReliableProfile(s.reader.mapping) then [Swept(nowMs)] else []
    case _ => []
  }

  function Log(states: seq<System>, actions: seq<Action>): seq<Entry>
    requires |states| == |actions| + 1
    requires forall i :: 0 <= i < |actions| ==> IsAscending(states[i].reader.received)
  {
    if actions == [] then []
    else
      var n := |actions| - 1;
      Log(states[..n + 1], actions[..n]) + EntriesOf(states[n], actions[n])
  }

  // ----- what the log says of a writer -----

  predicate HeardFrom(e: Entry, w: Writer) {
    e.Heard? && e.writer == w
  }

  /** More than the lease has passed; a lease of zero never runs out. */
  predicate Lapsed(sinceMs: U64, nowMs: U64, leaseMs: U64) {
    leaseMs > 0 && nowMs - sinceMs > leaseMs
  }

  /** The writer was heard from at position `last` and not after it. */
  ghost predicate LastHeard(log: seq<Entry>, w: Writer, last: int) {
    0 <= last < |log| && HeardFrom(log[last], w) && forall i :: last < i < |log| ==> !HeardFrom(log[i], w)
  }

  /** No sweep after position `last` came more than the lease after it. */
  ghost predicate NotLapsed(log: seq<Entry>, last: int, leaseMs: U64)
    requires 0 <= last < |log| && log[last].Heard?
  {
    forall i :: last < i < |log| && log[i].Swept? ==> !Lapsed(log[last].atMs, log[i].nowMs, leaseMs)
  }

  /** The writer has been heard from, and since then not been given up. */
  ghost predicate Current(log: seq<Entry>, w: Writer, leaseMs: U64) {
    exists last :: LastHeard(log, w, last) && NotLapsed(log, last, leaseMs)
  }

  /** From position `made` on the writer was never given up, and before it there was nothing to give up. */
  ghost predicate CurrentSince(log: seq<Entry>, w: Writer, leaseMs: U64, made: int) {
    && 0 <= made < |log| && HeardFrom(log[made], w)
    && !Current(log[..made], w, leaseMs)
    && forall i :: made < i <= |log| ==> Current(log[..i], w, leaseMs)
  }

  /** The number is the largest heard from the writer from position `made` on. */
  ghost predicate LargestSince(log: seq<Entry>, w: Writer, made: int, number: U64) {
    && 0 <= made && (exists i :: made <= i < |log| && HeardFrom(log[i], w) && log[i].number == number)
    && forall i :: made <= i < |log| && HeardFrom(log[i], w) ==> log[i].number <= number
  }

  predicate IsOf(r: R.WriterRecord, w: Writer) {
    r.participantGuidPrefix == w.prefix && r.writerId == w.entity
  }

  ghost predicate LastHeardAtTime(log: seq<Entry>, w: Writer, last: int, atMs: U64) {
    LastHeard(log, w, last) && log[last].atMs == atMs
  }

  /** The record says when the writer was last heard from, and the largest number heard since the record was made. */
  ghost predicate RecordIsTrue(log: seq<Entry>, leaseMs: U64, r: R.WriterRecord, w: Writer) {
    && (exists last :: LastHeardAtTime(log, w, last, r.lastSeenMs))
    && exists made :: CurrentSince(log, w, leaseMs, made) && LargestSince(log, w, made, r.lastSequenceNumber)
  }

  /** A writer has a record exactly while it is current; it has one record only, and that is true. */
  ghost predicate RecordsAreTrue(log: seq<Entry>, leaseMs: U64, writers: seq<R.WriterRecord>) {
    && OneRecordEach(writers)
    && (forall w: Writer :: Current(log, w, leaseMs) <==> exists i :: 0 <= i < |writers| && IsOf(writers[i], w))
    && forall i :: 0 <= i < |writers| ==>
         RecordIsTrue(log, leaseMs, writers[i], Writer(writers[i].participantGuidPrefix, writers[i].writerId))
  }

  // ----- the log gets longer -----

  lemma StillLast(log: seq<Entry>, e: Entry, w: Writer, last: int)
    requires !HeardFrom(e, w)
    ensures LastHeard(log + [e], w, last) <==> LastHeard(log, w, last)
  {
    var longer := log + [e];
    assert longer[|log|] == e && forall i :: 0 <= i < |log| ==> longer[i] == log[i];
  }

  lemma LastIsOne(log: seq<Entry>, w: Writer, a: int, b: int)
    requires LastHeard(log, w, a) && LastHeard(log, w, b)
    ensures a == b
  {
  }

  /** Hearing from a writer makes it current. */
  lemma HeardIsCurrent(log: seq<Entry>, e: Entry, w: Writer, leaseMs: U64)
    requires HeardFrom(e, w)
    ensures LastHeard(log + [e], w, |log|) && Current(log + [e], w, leaseMs)
  {
    assert NotLapsed(log + [e], |log|, leaseMs);
  }

  /** Hearing from another writer changes nothing. */
  lemma OtherIsNoMatter(log: seq<Entry>, e: Entry, w: Writer, leaseMs: U64)
    requires e.Heard? && e.writer != w
    ensures Current(log + [e], w, leaseMs) <==> Current(log, w, leaseMs)
  {
    hide LastHeard;
    var longer := log + [e];
    forall last | 0 <= last < |log| && log[last].Heard?
      ensures NotLapsed(longer, last, leaseMs) <==> NotLapsed(log, last, leaseMs)
    {
      assert forall i :: 0 <= i < |log| ==> longer[i] == log[i];
    }
    forall last
      ensures LastHeard(longer, w, last) <==> LastHeard(log, w, last)
      ensures LastHeard(log, w, last) ==> 0 <= last < |log| && log[last].Heard? && longer[last] == log[last]
    {
      StillLast(log, e, w, last);
      LastIsHeard(log, w, last);
    }
  }

  lemma LastIsHeard(log: seq<Entry>, w: Writer, last: int)
    ensures LastHeard(log, w, last) ==> 0 <= last < |log| && log[last].Heard?
  {
  }

  /** A sweep gives up exactly the current writers last heard from more than the lease ago. */
  lemma SweepGivesUp(log: seq<Entry>, nowMs: U64, w: Writer, leaseMs: U64)
    ensures Current(log + [Swept(nowMs)], w, leaseMs) <==>
      Current(log, w, leaseMs)
      && exists last :: LastHeard(log, w, last) && !Lapsed(log[last].atMs, nowMs, leaseMs)
  {
    hide Lapsed;
    var longer := log + [Swept(nowMs)];
    assert longer[|log|] == Swept(nowMs) && forall i :: 0 <= i < |log| ==> longer[i] == log[i];
    if last :| LastHeard(longer, w, last) && NotLapsed(longer, last, leaseMs) {
      StillLast(log, Swept(nowMs), w, last);
      assert NotLapsed(log, last, leaseMs);
      assert !Lapsed(longer[last].atMs, longer[|log|].nowMs, leaseMs);
    }
    if last, other :| LastHeard(log, w, last) && NotLapsed(log, last, leaseMs)
                      && LastHeard(log, w, other) && !Lapsed(log[other].atMs, nowMs, leaseMs) {
      LastIsOne(log, w, last, other);
      StillLast(log, Swept(nowMs), w, last);
      assert NotLapsed(longer, last, leaseMs);
    }
  }

  // ----- the records get older -----

  lemma StillSince(log: seq<Entry>, e: Entry, w: Writer, leaseMs: U64, made: int)
    requires CurrentSince(log, w, leaseMs, made) && Current(log + [e], w, leaseMs)
    ensures CurrentSince(log + [e], w, leaseMs, made)
  {
    hide Current;
    var longer := log + [e];
    assert longer[..made] == log[..made] && longer[made] == log[made];
    forall i | made < i <= |longer|
      ensures Current(longer[..i], w, leaseMs)
    {
      if i <= |log| {
        assert longer[..i] == log[..i];
      } else {
        assert longer[..i] == longer;
      }
    }
  }

  function Larger(a: U64, b: U64): U64 {
    if a < b then b else a
  }

  lemma StillLargest(log: seq<Entry>, e: Entry, w: Writer, made: int, number: U64)
    requires LargestSince(log, w, made, number)
    ensures LargestSince(log + [e], w, made, if HeardFrom(e, w) then Larger(number, e.number) else number)
  {
    var longer := log + [e];
    assert longer[|log|] == e && forall i :: 0 <= i < |log| ==> longer[i] == log[i];
    var k :| made <= k < |log| && HeardFrom(log[k], w) && log[k].number == number;
    assert HeardFrom(longer[k], w) && longer[k].number == number;
  }

  /** The record of a writer that is not heard from stays true while the writer stays current. */
  lemma RecordStays(log: seq<Entry>, e: Entry, leaseMs: U64, r: R.WriterRecord, w: Writer)
    requires RecordIsTrue(log, leaseMs, r, w) && !HeardFrom(e, w) && Current(log + [e], w, leaseMs)
    ensures RecordIsTrue(log + [e], leaseMs, r, w)
  {
    hide Current, CurrentSince, LargestSince, LastHeard;
    var last :| LastHeardAtTime(log, w, last, r.lastSeenMs);
    LastIsHeard(log, w, last);
    StillLast(log, e, w, last);
    assert LastHeardAtTime(log + [e], w, last, r.lastSeenMs);
    var made :| CurrentSince(log, w, leaseMs, made) && LargestSince(log, w, made, r.lastSequenceNumber);
    MadeIsPosition(log, w, leaseMs, made);
    StillSince(log, e, w, leaseMs, made);
    StillLargest(log, e, w, made, r.lastSequenceNumber);
  }

  lemma MadeIsPosition(log: seq<Entry>, w: Writer, leaseMs: U64, made: int)
    requires CurrentSince(log, w, leaseMs, made)
    ensures 0 <= made < |log| && Current(log, w, leaseMs)
  {
    hide Current;
    assert log[..|log|] == log;
  }

  /** The record of the writer that is heard from again: its time is renewed, and its number if it is larger. */
  lemma RecordRenewed(log: seq<Entry>, e: Entry, leaseMs: U64, r: R.WriterRecord, w: Writer)
    requires RecordIsTrue(log, leaseMs, r, w) && HeardFrom(e, w)
    ensures RecordIsTrue(
      log + [e], leaseMs,
      r.(lastSequenceNumber := Larger(r.lastSequenceNumber, e.number), lastSeenMs := e.atMs), w)
  {
    hide Current, CurrentSince, LargestSince, LastHeard, Larger;
    HeardIsCurrent(log, e, w, leaseMs);
    assert LastHeardAtTime(log + [e], w, |log|, e.atMs);
    var made :| CurrentSince(log, w, leaseMs, made) && LargestSince(log, w, made, r.lastSequenceNumber);
    MadeIsPosition(log, w, leaseMs, made);
    StillSince(log, e, w, leaseMs, made);
    StillLargest(log, e, w, made, r.lastSequenceNumber);
  }

  /** The record made for a writer that had none. */
  lemma RecordMade(log: seq<Entry>, e: Entry, leaseMs: U64, w: Writer)
    requires !Current(log, w, leaseMs) && HeardFrom(e, w)
    ensures RecordIsTrue(log + [e], leaseMs, R.WriterRecord(w.prefix, w.entity, e.number, e.atMs), w)
  {
    hide Current, LastHeard;
    var longer := log + [e];
    HeardIsCurrent(log, e, w, leaseMs);
    assert longer[|log|] == e && longer[..|log|] == log;
    assert forall i :: |log| < i <= |longer| ==> longer[..i] == longer;
    assert LastHeardAtTime(longer, w, |log|, e.atMs);
    assert CurrentSince(longer, w, leaseMs, |log|);
    assert LargestSince(longer, w, |log|, e.number);
  }

  // ----- accepting -----

  lemma IsOfPair(pair: EndpointMatch, r: R.WriterRecord)
    ensures R.IsRecordOf(pair, r) <==> IsOf(r, WriterOf(pair))
  {
  }

  /** What the renewed or extended list of records holds. */
  lemma SeenIs(writers: seq<R.WriterRecord>, pair: EndpointMatch, number: U64, nowMs: U64)
    ensures var i, seen := R.FindWriterState(writers, pair), R.Seen(
        writers, R.FindWriterState(writers, pair), pair, number, nowMs);
      if i < |writers| then
        && IsOf(writers[i], WriterOf(pair))
        && seen == writers[i := writers[i].(
             lastSequenceNumber := Larger(writers[i].lastSequenceNumber, number), lastSeenMs := nowMs)]
      else
        && (forall j :: 0 <= j < |writers| ==> !IsOf(writers[j], WriterOf(pair)))
        && seen == writers + [R.WriterRecord(WriterOf(pair).prefix, WriterOf(pair).entity, number, nowMs)]
  {
    hide R.FindWriterState, R.IsRecordOf, IsOf;
    var i := R.FindWriterState(writers, pair);
    if i < |writers| {
      IsOfPair(pair, writers[i]);
    } else {
      NotFoundIsNew(writers, pair);
      forall j | 0 <= j < |writers|
        ensures !IsOf(writers[j], WriterOf(pair))
      {
        IsOfPair(pair, writers[j]);
      }
    }
  }

  /** The records of the writers other than the one heard from. */
  lemma OthersStayTrue(log: seq<Entry>, e: Entry, leaseMs: U64, writers: seq<R.WriterRecord>, j: nat)
    requires RecordsAreTrue(log, leaseMs, writers) && j < |writers| && e.Heard? && !IsOf(writers[j], e.writer)
    ensures RecordIsTrue(
      log + [e], leaseMs, writers[j], Writer(writers[j].participantGuidPrefix, writers[j].writerId))
  {
    hide RecordIsTrue, Current, OneRecordEach;
    var w := Writer(writers[j].participantGuidPrefix, writers[j].writerId);
    assert IsOf(writers[j], w) && Current(log, w, leaseMs);
    OtherIsNoMatter(log, e, w, leaseMs);
    RecordStays(log, e, leaseMs, writers[j], w);
  }

  lemma RenewalKeepsTrue(log: seq<Entry>, e: Entry, leaseMs: U64, writers: seq<R.WriterRecord>, i: nat)
    requires RecordsAreTrue(log, leaseMs, writers) && i < |writers| && e.Heard? && IsOf(writers[i], e.writer)
    ensures RecordsAreTrue(
      log + [e], leaseMs,
      writers[i := writers[i].(
        lastSequenceNumber := Larger(writers[i].lastSequenceNumber, e.number), lastSeenMs := e.atMs)])
  {
    hide RecordIsTrue, Current, Larger;
    var seen := writers[i := writers[i].(
      lastSequenceNumber := Larger(writers[i].lastSequenceNumber, e.number), lastSeenMs := e.atMs)];
    forall w: Writer
      ensures Current(log + [e], w, leaseMs) <==> exists j :: 0 <= j < |seen| && IsOf(seen[j], w)
    {
      SameWriters(writers, seen, w);
      if w == e.writer {
        HeardIsCurrent(log, e, w, leaseMs);
        assert IsOf(seen[i], w);
      } else {
        OtherIsNoMatter(log, e, w, leaseMs);
      }
    }
    forall j | 0 <= j < |seen|
      ensures RecordIsTrue(log + [e], leaseMs, seen[j], Writer(seen[j].participantGuidPrefix, seen[j].writerId))
    {
      if j == i {
        RecordRenewed(log, e, leaseMs, writers[i], e.writer);
      } else {
        OthersStayTrue(log, e, leaseMs, writers, j);
      }
    }
  }

  lemma SameWriters(a: seq<R.WriterRecord>, b: seq<R.WriterRecord>, w: Writer)
    requires |a| == |b| && forall i :: 0 <= i < |a| ==>
      a[i].participantGuidPrefix == b[i].participantGuidPrefix && a[i].writerId == b[i].writerId
    ensures (exists i :: 0 <= i < |a| && IsOf(a[i], w)) <==> exists i :: 0 <= i < |b| && IsOf(b[i], w)
  {
    if i :| 0 <= i < |a| && IsOf(a[i], w) {
      assert IsOf(b[i], w);
    }
  }

  lemma AdditionKeepsTrue(log: seq<Entry>, e: Entry, leaseMs: U64, writers: seq<R.WriterRecord>)
    requires RecordsAreTrue(log, leaseMs, writers) && e.Heard?
    requires forall j :: 0 <= j < |writers| ==> !IsOf(writers[j], e.writer)
    ensures RecordsAreTrue(
      log + [e], leaseMs, writers + [R.WriterRecord(e.writer.prefix, e.writer.entity, e.number, e.atMs)])
  {
    hide RecordIsTrue, Current;
    var added := writers + [R.WriterRecord(e.writer.prefix, e.writer.entity, e.number, e.atMs)];
    forall w: Writer
      ensures Current(log + [e], w, leaseMs) <==> exists j :: 0 <= j < |added| && IsOf(added[j], w)
    {
      OneWriterMore(writers, added[|writers|], w);
      if w == e.writer {
        HeardIsCurrent(log, e, w, leaseMs);
      } else {
        OtherIsNoMatter(log, e, w, leaseMs);
      }
    }
    forall j | 0 <= j < |added|
      ensures RecordIsTrue(log + [e], leaseMs, added[j], Writer(added[j].participantGuidPrefix, added[j].writerId))
    {
      if j == |writers| {
        RecordMade(log, e, leaseMs, e.writer);
      } else {
        OthersStayTrue(log, e, leaseMs, writers, j);
      }
    }
  }

  lemma OneWriterMore(writers: seq<R.WriterRecord>, r: R.WriterRecord, w: Writer)
    ensures (exists i :: 0 <= i < |writers + [r]| && IsOf((writers + [r])[i], w))
      <==> IsOf(r, w) || exists i :: 0 <= i < |writers| && IsOf(writers[i], w)
  {
    if i :| 0 <= i < |writers| && IsOf(writers[i], w) {
      assert IsOf((writers + [r])[i], w);
    }
    assert (writers + [r])[|writers|] == r;
  }

  lemma HearingKeepsTrue(
    log: seq<Entry>, leaseMs: U64, writers: seq<R.WriterRecord>, pair: EndpointMatch, number: U64, nowMs: U64)
    requires RecordsAreTrue(log, leaseMs, writers)
    ensures RecordsAreTrue(
      log + [Heard(WriterOf(pair), number, nowMs)], leaseMs,
      R.Seen(writers, R.FindWriterState(writers, pair), pair, number, nowMs))
  {
    hide RecordsAreTrue, R.FindWriterState, R.Seen;
    SeenIs(writers, pair, number, nowMs);
    var i := R.FindWriterState(writers, pair);
    if i < |writers| {
      RenewalKeepsTrue(log, Heard(WriterOf(pair), number, nowMs), leaseMs, writers, i);
    } else {
      AdditionKeepsTrue(log, Heard(WriterOf(pair), number, nowMs), leaseMs, writers);
    }
  }

  // ----- expiring -----

  lemma LapsedIsExceeded(r: R.WriterRecord, nowMs: U64, leaseMs: U64)
    ensures R.ExceedsDuration(nowMs, r.lastSeenMs, leaseMs) <==> Lapsed(r.lastSeenMs, nowMs, leaseMs)
  {
  }

  /** A writer with a record stays current at a sweep exactly if the time in its record has not lapsed. */
  lemma SweepJudgesRecord(log: seq<Entry>, nowMs: U64, leaseMs: U64, r: R.WriterRecord, w: Writer)
    requires RecordIsTrue(log, leaseMs, r, w) && Current(log, w, leaseMs)
    ensures Current(log + [Swept(nowMs)], w, leaseMs) <==> !Lapsed(r.lastSeenMs, nowMs, leaseMs)
  {
    hide Current, Lapsed, CurrentSince, LargestSince, LastHeard;
    SweepGivesUp(log, nowMs, w, leaseMs);
    var last :| LastHeardAtTime(log, w, last, r.lastSeenMs);
    LastIsHeard(log, w, last);
    forall other | LastHeard(log, w, other)
      ensures other == last
    {
      LastIsOne(log, w, last, other);
    }
  }

  /** Which records are kept, seen from the writers. */
  lemma KeptWriters(writers: seq<R.WriterRecord>, nowMs: U64, leaseMs: U64, w: Writer)
    requires OneRecordEach(writers)
    ensures var kept := R.Unexpired(writers, nowMs, leaseMs);
      && OneRecordEach(kept)
      && (forall j :: 0 <= j < |kept| ==> kept[j] in writers && !Lapsed(kept[j].lastSeenMs, nowMs, leaseMs))
      && forall i :: 0 <= i < |writers| && IsOf(writers[i], w) ==>
           ((exists j :: 0 <= j < |kept| && IsOf(kept[j], w)) <==> !Lapsed(writers[i].lastSeenMs, nowMs, leaseMs))
  {
    hide Lapsed, R.ExceedsDuration, R.Unexpired, OneRecordEach;
    var kept := R.Unexpired(writers, nowMs, leaseMs);
    ExpiryIsExact(writers, nowMs, leaseMs);
    forall r <- writers
      ensures R.ExceedsDuration(nowMs, r.lastSeenMs, leaseMs) <==> Lapsed(r.lastSeenMs, nowMs, leaseMs)
    {
      LapsedIsExceeded(r, nowMs, leaseMs);
    }
    forall j | 0 <= j < |kept|
      ensures kept[j] in writers && !Lapsed(kept[j].lastSeenMs, nowMs, leaseMs)
    {
      assert kept[j] in kept;
    }
    forall i | 0 <= i < |writers| && IsOf(writers[i], w)
      ensures (exists j :: 0 <= j < |kept| && IsOf(kept[j], w)) <==> !Lapsed(writers[i].lastSeenMs, nowMs, leaseMs)
    {
      if !Lapsed(writers[i].lastSeenMs, nowMs, leaseMs) {
        assert writers[i] in kept;
        var j :| 0 <= j < |kept| && kept[j] == writers[i];
      } else if j :| 0 <= j < |kept| && IsOf(kept[j], w) {
        assert kept[j] in writers;
        var k :| 0 <= k < |writers| && writers[k] == kept[j];
        OnlyRecord(writers, i, k, w);
      }
    }
  }

  lemma OnlyRecord(writers: seq<R.WriterRecord>, i: nat, k: nat, w: Writer)
    requires OneRecordEach(writers) && i < |writers| && k < |writers| && IsOf(writers[i], w) && IsOf(writers[k], w)
    ensures i == k
  {
  }

  lemma KeptAreDistinct(writers: seq<R.WriterRecord>, nowMs: U64, leaseMs: U64)
    requires OneRecordEach(writers)
    ensures OneRecordEach(R.Unexpired(writers, nowMs, leaseMs))
  {
    hide OneRecordEach, R.Unexpired;
    ExpiryIsExact(writers, nowMs, leaseMs);
  }

  lemma SweepKeepsTrue(log: seq<Entry>, leaseMs: U64, writers: seq<R.WriterRecord>, nowMs: U64)
    requires RecordsAreTrue(log, leaseMs, writers)
    ensures RecordsAreTrue(log + [Swept(nowMs)], leaseMs, R.Unexpired(writers, nowMs, leaseMs))
  {
    hide RecordIsTrue, Current, Lapsed, R.Unexpired, OneRecordEach;
    var kept, longer := R.Unexpired(writers, nowMs, leaseMs), log + [Swept(nowMs)];
    forall w: Writer
      ensures Current(longer, w, leaseMs) <==> exists j :: 0 <= j < |kept| && IsOf(kept[j], w)
    {
      KeptWriters(writers, nowMs, leaseMs, w);
      if Current(log, w, leaseMs) {
        var i :| 0 <= i < |writers| && IsOf(writers[i], w);
        assert w == Writer(writers[i].participantGuidPrefix, writers[i].writerId);
        SweepJudgesRecord(log, nowMs, leaseMs, writers[i], w);
      } else {
        SweepGivesUp(log, nowMs, w, leaseMs);
        NoneKept(writers, kept, w);
      }
    }
    forall j | 0 <= j < |kept|
      ensures RecordIsTrue(longer, leaseMs, kept[j], Writer(kept[j].participantGuidPrefix, kept[j].writerId))
    {
      var w := Writer(kept[j].participantGuidPrefix, kept[j].writerId);
      KeptWriters(writers, nowMs, leaseMs, w);
      var i :| 0 <= i < |writers| && writers[i] == kept[j];
      assert IsOf(writers[i], w);
      SweepJudgesRecord(log, nowMs, leaseMs, kept[j], w);
      RecordStays(log, Swept(nowMs), leaseMs, kept[j], w);
    }
    KeptAreDistinct(writers, nowMs, leaseMs);
  }

  lemma NoneKept(writers: seq<R.WriterRecord>, kept: seq<R.WriterRecord>, w: Writer)
    requires forall j :: 0 <= j < |kept| ==> kept[j] in writers
    requires forall i :: 0 <= i < |writers| ==> !IsOf(writers[i], w)
    ensures forall j :: 0 <= j < |kept| ==> !IsOf(kept[j], w)
  {
    forall j | 0 <= j < |kept|
      ensures !IsOf(kept[j], w)
    {
      var i :| 0 <= i < |writers| && writers[i] == kept[j];
    }
  }

  // ----- runs -----

  function LeaseOf(s: System): U64 {
    s.reader.mapping.qos.livelinessLeaseDurationMs
  }

  ghost predicate Tracks(log: seq<Entry>, s: System) {
    RecordsAreTrue(log, LeaseOf(s), s.reader.writers)
  }

  /** A delivery is either accepted, and noted with its number, or it leaves the records alone. */
  lemma DeliverKeepsTrue(log: seq<Entry>, s: System, a: Action)
    requires IsAscending(s.reader.received) && Tracks(log, s) && a.Deliver?
    ensures Tracks(log + EntriesOf(s, a), Step(s, a))
  {
    hide Parsed, R.ReadyFor, R.FindWriterState, R.Seen, R.MatchedData, Decoded, RecordsAreTrue, IsAscending;
    assert log + [] == log;
    if a.datagram in s.network && Parsed(a.datagram).Some? {
      var message := Parsed(a.datagram).value;
      if R.SampleAccepted(s.reader, a.pair, message, a.nowMs).1.Some? {
        var number := R.MatchedData(a.pair, message.data).value.writerSequenceNumber;
        HearingKeepsTrue(log, LeaseOf(s), s.reader.writers, a.pair, number, a.nowMs);
      }
    }
  }

  lemma StepKeepsTrue(log: seq<Entry>, s: System, a: Action)
    requires IsAscending(s.reader.received) && Tracks(log, s)
    ensures Tracks(log + EntriesOf(s, a), Step(s, a)) && LeaseOf(Step(s, a)) == LeaseOf(s)
  {
    hide RecordsAreTrue, R.SampleAccepted, R.Unexpired, R.ReadyFor, R.NotReceived, R.NeverAnswered, IsAscending, Parsed;
    assert log + [] == log;
    match a
    case Deliver(pair, datagram, nowMs) =>
      DeliverKeepsTrue(log, s, a);
      if Parsed(datagram).Some? {
        LeaseStays(s.reader, pair, Parsed(datagram).value, nowMs);
      }
    case Expire(nowMs) =>
      SweepKeepsTrue(log, LeaseOf(s), s.reader.writers, nowMs);
    case _ =>
  }

  lemma LeaseStays(r: R.ReaderState, pair: EndpointMatch, message: Message, nowMs: U64)
    requires IsAscending(r.received)
    ensures R.SampleAccepted(r, pair, message, nowMs).0.mapping == r.mapping
  {
    hide R.ReadyFor, R.FindWriterState, R.Seen, R.MatchedData, Decoded, IsAscending;
  }

  /**
   In every state of every run a writer has a record exactly while it is current, that is, it was heard from
   and no sweep since then came more than the lease later. Its record, of which there is only one, holds the
   time at which it was last heard from and the largest number heard since the record was made.
   */
  lemma {:induction false} RecordsFollowTheLog(
    writerMapping: TopicMapping, depth: nat, readerMapping: TopicMapping, states: seq<System>, actions: seq<Action>)
    requires IsRun(states, actions) && states[0] == Initial(writerMapping, depth, readerMapping)
    ensures Tracks(Log(states, actions), states[|actions|])
    ensures LeaseOf(states[|actions|]) == readerMapping.qos.livelinessLeaseDurationMs
    decreases |actions|
  {
    hide Step, Tracks, EntriesOf, IsAscending;
    if actions == [] {
      NothingHeard(writerMapping, depth, readerMapping);
    } else {
      var n := |actions| - 1;
      RecordsFollowTheLog(writerMapping, depth, readerMapping, states[..n + 1], actions[..n]);
      StepKeepsTrue(Log(states[..n + 1], actions[..n]), states[n], actions[n]);
    }
  }

  lemma NothingHeard(writerMapping: TopicMapping, depth: nat, readerMapping: TopicMapping)
    ensures Tracks([], Initial(writerMapping, depth, readerMapping))
  {
  }

  predicate HasRecord(writers: seq<R.WriterRecord>, w: Writer) {
    exists i :: 0 <= i < |writers| && IsOf(writers[i], w)
  }

  /**
   In every reachable state: expiry drops a recorded writer exactly if the lease is not zero and the writer was
   last heard from more than the lease ago. It returns, and adds to its counter, how many it dropped.
   */
  lemma ExpiryDropsLapsed(log: seq<Entry>, s: System, nowMs: U64, w: Writer)
    requires Tracks(log, s) && ReliableProfile(s.reader.mapping)
    ensures var (r', removed) := R.WritersExpired(s.reader, nowMs);
      && (HasRecord(r'.writers, w) <==>
            && HasRecord(s.reader.writers, w)
            && exists last :: LastHeard(log, w, last) && !Lapsed(log[last].atMs, nowMs, LeaseOf(s)))
      && |r'.writers| <= |s.reader.writers| && removed == Some(|s.reader.writers| - |r'.writers|)
      && r' == s.reader.(
           writers := r'.writers, livelinessLost := (s.reader.livelinessLost + removed.value) % U64_MODULUS)
  {
    hide R.Unexpired, Lapsed, Current, RecordIsTrue, OneRecordEach, ReliableProfile;
    SweepKeepsTrue(log, LeaseOf(s), s.reader.writers, nowMs);
    SweepGivesUp(log, nowMs, w, LeaseOf(s));
  }

  // ----- what is accepted, and what each refusal counts -----

  /** The first DATA submessage from the matched writer to the matched reader. */
  ghost predicate FirstFor(pair: EndpointMatch, data: seq<DataSubmessage>, i: int) {
    && 0 <= i < |data| && For(pair, data[i])
    && forall j :: 0 <= j < i ==> !For(pair, data[j])
  }

  predicate For(pair: EndpointMatch, d: DataSubmessage) {
    d.writerId == pair.remoteEndpoint.endpointId && d.readerId == pair.localEndpointId
  }

  lemma {:induction false} MatchedIsFirst(pair: EndpointMatch, data: seq<DataSubmessage>, i: int)
    requires FirstFor(pair, data, i)
    ensures R.MatchedData(pair, data) == if data[i].writerSequenceNumber == 0 then None else Some(data[i])
    decreases |data|
  {
    if i > 0 {
      assert For(pair, data[1..][i - 1]) && !For(pair, data[0]);
      assert forall j :: 0 <= j < i - 1 ==> data[1..][j] == data[j + 1];
      MatchedIsFirst(pair, data[1..], i - 1);
    }
  }

  lemma {:induction false} NoneMatched(pair: EndpointMatch, data: seq<DataSubmessage>)
    requires forall i :: 0 <= i < |data| ==> !For(pair, data[i])
    ensures R.MatchedData(pair, data).None?
    decreases |data|
  {
    if data != [] {
      NoneMatched(pair, data[1..]);
    }
  }

  /** The message comes from the matched writer's participant and carries numbered data for this reader at `i`. */
  ghost predicate Concerns(r: R.ReaderState, pair: EndpointMatch, message: Message, i: int) {
    && ReliableProfile(r.mapping) && ValidMatch(r.mapping, pair, Subscription)
    && message.guidPrefix == pair.remoteEndpoint.participantGuidPrefix
    && FirstFor(pair, message.data, i) && message.data[i].writerSequenceNumber != 0
  }

  predicate RoomForWriter(r: R.ReaderState, w: Writer) {
    HasRecord(r.writers, w) || r.mapping.qos.maxRemoteWriters == 0 || |r.writers| < r.mapping.qos.maxRemoteWriters
  }

  predicate RoomForSample(r: R.ReaderState) {
    r.mapping.qos.maxCachedSamples == 0 || |r.received| < r.mapping.qos.maxCachedSamples
  }

  lemma HasRecordIfFound(writers: seq<R.WriterRecord>, pair: EndpointMatch)
    ensures R.FindWriterState(writers, pair) < |writers| <==> HasRecord(writers, WriterOf(pair))
    ensures R.FindWriterState(writers, pair) < |writers| ==>
      IsOf(writers[R.FindWriterState(writers, pair)], WriterOf(pair))
  {
    hide R.FindWriterState, R.Seen, Larger;
    SeenIs(writers, pair, 1, 0);
  }

  /** More than the deadline has passed since the time in the writer's record. */
  ghost predicate MissesDeadline(r: R.ReaderState, w: Writer, nowMs: U64) {
    exists i :: 0 <= i < |r.writers| && IsLapsed(r.writers[i], w, nowMs, r.mapping.qos.deadlineMs)
  }

  predicate IsLapsed(r: R.WriterRecord, w: Writer, nowMs: U64, durationMs: U64) {
    IsOf(r, w) && Lapsed(r.lastSeenMs, nowMs, durationMs)
  }

  lemma LateIfFound(r: R.ReaderState, pair: EndpointMatch, nowMs: U64)
    requires OneRecordEach(r.writers)
    ensures var i := R.FindWriterState(r.writers, pair);
      MissesDeadline(r, WriterOf(pair), nowMs) <==>
        i < |r.writers| && R.ExceedsDuration(nowMs, r.writers[i].lastSeenMs, r.mapping.qos.deadlineMs)
  {
    hide R.FindWriterState, OneRecordEach, HasRecord, IsOf, Lapsed, R.ExceedsDuration;
    HasRecordIfFound(r.writers, pair);
    var i := R.FindWriterState(r.writers, pair);
    if i < |r.writers| {
      LapsedIsExceeded(r.writers[i], nowMs, r.mapping.qos.deadlineMs);
    }
    if k :| 0 <= k < |r.writers| && IsLapsed(r.writers[k], WriterOf(pair), nowMs, r.mapping.qos.deadlineMs) {
      FoundHasRecord(r.writers, k, WriterOf(pair));
      OnlyRecord(r.writers, i, k, WriterOf(pair));
    }
  }

  lemma FoundHasRecord(writers: seq<R.WriterRecord>, k: nat, w: Writer)
    requires k < |writers| && IsOf(writers[k], w)
    ensures HasRecord(writers, w)
  {
  }

  lemma InsertAdds(x: U64, s: seq<U64>)
    requires IsAscending(s)
    ensures forall y: U64 :: y in Insert(x, s) <==> y == x || y in s
  {
  }

  /** What a message that does not concern the reader does: nothing. */
  lemma OthersAreIgnored(r: R.ReaderState, pair: EndpointMatch, message: Message, nowMs: U64)
    requires IsAscending(r.received) && forall i :: !Concerns(r, pair, message, i)
    ensures R.SampleAccepted(r, pair, message, nowMs) == (r, None)
  {
    hide R.FindWriterState, R.Seen, R.MatchedData, Decoded, IsAscending, ReliableProfile, ValidMatch, FirstFor;
    if R.ReadyFor(r.mapping, pair) && message.guidPrefix == pair.remoteEndpoint.participantGuidPrefix {
      FirstOrNone(pair, message.data);
      if i :| FirstFor(pair, message.data, i) {
        FirstIsIndex(pair, message.data, i);
        MatchedIsFirst(pair, message.data, i);
        assert !Concerns(r, pair, message, i);
      } else {
        NoneMatched(pair, message.data);
      }
    }
  }

  lemma FirstIsIndex(pair: EndpointMatch, data: seq<DataSubmessage>, i: int)
    requires FirstFor(pair, data, i)
    ensures 0 <= i < |data|
  {
  }

  lemma {:induction false} FirstOrNone(pair: EndpointMatch, data: seq<DataSubmessage>)
    ensures (exists i :: FirstFor(pair, data, i)) || forall i :: 0 <= i < |data| ==> !For(pair, data[i])
    decreases |data|
  {
    if data != [] {
      if For(pair, data[0]) {
        assert FirstFor(pair, data, 0);
      } else {
        FirstOrNone(pair, data[1..]);
        if i :| FirstFor(pair, data[1..], i) {
          assert forall j :: 0 <= j < |data| - 1 ==> data[1..][j] == data[j + 1];
          assert FirstFor(pair, data, i + 1);
        } else {
          assert forall j :: 0 < j < |data| ==> data[j] == data[1..][j - 1];
        }
      }
    }
  }

  /**
   A message that concerns the reader is accepted exactly if there is room for its writer and for the sample,
   its number is new, and its payload decodes; the sample then carries its number. What stands in the way
   first is what is counted; a writer heard from later than its deadline is counted unless something did.
   */
  lemma VerdictIsExact(r: R.ReaderState, pair: EndpointMatch, message: Message, nowMs: U64, i: int)
    requires IsAscending(r.received) && OneRecordEach(r.writers) && Concerns(r, pair, message, i)
    ensures var (r', sample) := R.SampleAccepted(r, pair, message, nowMs);
      var number, w := message.data[i].writerSequenceNumber, WriterOf(pair);
      var decoded := Decoded(r.mapping, message.data[i].serializedPayload);
      var full := !RoomForWriter(r, w) || (number !in r.received && !RoomForSample(r));
      var duplicate := RoomForWriter(r, w) && number in r.received;
      var late := !full && !duplicate && MissesDeadline(r, w, nowMs);
      && sample == (if full || duplicate || decoded.None? then None else Some(decoded.value.(sequence := number)))
      && (sample.None? ==> r'.writers == r.writers && r'.received == r.received)
      && (sample.Some? ==> forall x: U64 :: x in r'.received <==> x == number || x in r.received)
      && r' == r.(
           received := r'.received, writers := r'.writers,
           samplesReceived := if sample.Some? then Increment(r.samplesReceived) else r.samplesReceived,
           duplicateSamplesRejected :=
             if duplicate then Increment(r.duplicateSamplesRejected) else r.duplicateSamplesRejected,
           resourceLimitRejections :=
             if full then Increment(r.resourceLimitRejections) else r.resourceLimitRejections,
           deadlineMisses := if late then Increment(r.deadlineMisses) else r.deadlineMisses)
  {
    hide R.FindWriterState, R.Seen, R.MatchedData, R.IsRecordOf, Decoded, ReliableProfile, ValidMatch, FirstFor, IsOf;
    hide Increment, IsAscending, HasRecord, MissesDeadline, OneRecordEach, R.ExceedsDuration;
    FirstIsIndex(pair, message.data, i);
    MatchedIsFirst(pair, message.data, i);
    HasRecordIfFound(r.writers, pair);
    LateIfFound(r, pair, nowMs);
    InsertAdds(message.data[i].writerSequenceNumber, r.received);
  }
}
