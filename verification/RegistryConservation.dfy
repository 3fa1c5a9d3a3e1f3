/** While its service runs, a method's calls are taken in the order they came, and none of its results is lost. */
module RegistryConservation {
  import opened Bytes
  import opened ServiceTypes
  import opened ServiceKeys
  import opened ServiceRegistry
  import opened RegistryCalls
  import opened RegistryRuns
  import opened RegistryAnswers

  // ----- correlation ids -----

  /**
   A new id is the first free one from the counter on, around the end and past zero; the counter then stands
   behind it. A call that brings its own id does not move the counter.
   */
  lemma NewIdIsFirstFree(r: Registry, c: MethodCall, authorized: bool)
    requires r.nextCorrelationId != 0 && (c.correlationId == 0 ==> CanAllocate(r))
    requires Submitted(r, c, authorized).1.Some?
    ensures var (r', queued) := Submitted(r, c, authorized);
      var next, id := r.nextCorrelationId, queued.value.correlationId;
      if c.correlationId != 0 then r'.nextCorrelationId == next
      else
        && id != 0 && id !in KnownIds(r)
        && r'.nextCorrelationId == (if id == 0xFFFF_FFFF_FFFF_FFFF then 1 else id + 1)
        && forall x: U64 :: (if next <= id then next <= x < id else next <= x || 0 < x < id) ==> x in KnownIds(r)
  {
    hide KnownIds, KeyFor, MemberKey, IsOffered, Pushed, Candidate;
    if c.correlationId == 0 {
      var next, known := r.nextCorrelationId, KnownIds(r);
      SomeIdIsFree(known, next);
      var n := FirstFree(known, next, 0);
      NextCandidate(next, n);
      assert Submitted(r, c, authorized).1.value.correlationId == Candidate(next, n);
      assert Submitted(r, c, authorized).0.nextCorrelationId == Candidate(next, n + 1);
      forall x: U64 | if next <= Candidate(next, n) then next <= x < Candidate(next, n)
                      else next <= x || 0 < x < Candidate(next, n)
        ensures x in known
      {
        PassedOver(next, n, x);
      }
    }
  }

  /** Each id passed on the way to the candidate is an earlier candidate. */
  lemma PassedOver(next: U64, n: nat, x: U64)
    requires next != 0 && n < U64_MODULUS - 1
    requires if next <= Candidate(next, n) then next <= x < Candidate(next, n)
             else next <= x || 0 < x < Candidate(next, n)
    ensures exists k: nat :: k < n && Candidate(next, k) == x
  {
    var k: nat := if next <= x then x - next else x + (U64_MODULUS - 1) - next;
    assert Candidate(next, k) == x;
    assert k < n;
  }

  // ----- the events of one method -----

  function QueuedFor(log: seq<Event>, s: ServiceIdentifier, name: Name): seq<MethodCall> {
    if log == [] then []
    else
      var n := |log| - 1;
      QueuedFor(log[..n], s, name)
      + if log[n].Queued? && log[n].call.service == s && log[n].call.methodName == name then [log[n].call] else []
  }

  function TakenFor(log: seq<Event>, s: ServiceIdentifier, name: Name): seq<MethodCall> {
    if log == [] then []
    else
      var n := |log| - 1;
      TakenFor(log[..n], s, name)
      + if log[n].Taken? && log[n].call.service == s && log[n].call.methodName == name then [log[n].call] else []
  }

  function AnsweredFor(log: seq<Event>, s: ServiceIdentifier, name: Name): seq<MethodResult> {
    if log == [] then []
    else
      var n := |log| - 1;
      AnsweredFor(log[..n], s, name)
      + if log[n].Answered? && log[n].result.service == s && log[n].result.methodName == name
        then [log[n].result] else []
  }

  function ReturnedFor(log: seq<Event>, s: ServiceIdentifier, name: Name): seq<MethodResult> {
    if log == [] then []
    else
      var n := |log| - 1;
      ReturnedFor(log[..n], s, name)
      + if log[n].Returned? && log[n].result.service == s && log[n].result.methodName == name
        then [log[n].result] else []
  }

  lemma OneMore(log: seq<Event>, events: seq<Event>, s: ServiceIdentifier, name: Name)
    requires |events| <= 1
    ensures QueuedFor(log + events, s, name) == QueuedFor(log, s, name) + QueuedFor(events, s, name)
    ensures TakenFor(log + events, s, name) == TakenFor(log, s, name) + TakenFor(events, s, name)
    ensures AnsweredFor(log + events, s, name) == AnsweredFor(log, s, name) + AnsweredFor(events, s, name)
    ensures ReturnedFor(log + events, s, name) == ReturnedFor(log, s, name) + ReturnedFor(events, s, name)
  {
    if events == [] {
      assert log + events == log;
    } else {
      assert (log + events)[..|log|] == log && events[..0] == [];
    }
  }

  // ----- one step -----

  /** What is queued for a method and what comes in is what goes out and what is queued then. */
  ghost predicate Conserved(r: Registry, events: seq<Event>, r': Registry, s: ServiceIdentifier, name: Name) {
    var key := MemberKey(s, name);
    && QueueOf(r.pendingCalls, key) + QueuedFor(events, s, name)
         == TakenFor(events, s, name) + QueueOf(r'.pendingCalls, key)
    && multiset(QueueOf(r.pendingResults, key)) + multiset(AnsweredFor(events, s, name))
         == multiset(ReturnedFor(events, s, name)) + multiset(QueueOf(r'.pendingResults, key))
  }

  lemma NothingHappens(r: Registry, r': Registry, s: ServiceIdentifier, name: Name)
    requires var key := MemberKey(s, name);
      && QueueOf(r'.pendingCalls, key) == QueueOf(r.pendingCalls, key)
      && QueueOf(r'.pendingResults, key) == QueueOf(r.pendingResults, key)
    ensures Conserved(r, [], r', s, name)
  {
    hide MemberKey, QueueOf;
    var calls := QueueOf(r.pendingCalls, MemberKey(s, name));
    assert calls + [] == [] + calls;
  }

  lemma PushedElsewhere<T>(m: map<Name, seq<T>>, key: Name, x: T, other: Name)
    ensures QueueOf(Pushed(m, key, x), other) == QueueOf(m, other) + if other == key then [x] else []
  {
    assert QueueOf(m, other) + [] == QueueOf(m, other);
  }

  predicate Of(s: ServiceIdentifier, name: Name, service: ServiceIdentifier, methodName: Name) {
    service == s && methodName == name
  }

  lemma Single(e: Event, s: ServiceIdentifier, name: Name)
    ensures QueuedFor([e], s, name)
      == if e.Queued? && Of(s, name, e.call.service, e.call.methodName) then [e.call] else []
    ensures TakenFor([e], s, name)
      == if e.Taken? && Of(s, name, e.call.service, e.call.methodName) then [e.call] else []
    ensures AnsweredFor([e], s, name)
      == if e.Answered? && Of(s, name, e.result.service, e.result.methodName) then [e.result] else []
    ensures ReturnedFor([e], s, name)
      == if e.Returned? && Of(s, name, e.result.service, e.result.methodName) then [e.result] else []
  {
    assert [e][..0] == [];
  }

  lemma SubmissionConserves(r: Registry, c: MethodCall, r': Registry, s: ServiceIdentifier, name: Name)
    requires CallQueued(r, c, r')
    ensures Conserved(r, [Queued(c)], r', s, name)
  {
    hide MemberKey, KnownIds, IsOffered, Pushed, QueueOf, QueuedFor, TakenFor, AnsweredFor, ReturnedFor;
    PushedElsewhere(r.pendingCalls, MemberKey(c.service, c.methodName), c, MemberKey(s, name));
    MemberKeyIsInjective(s, name, c.service, c.methodName);
    Single(Queued(c), s, name);
    var now := QueueOf(r'.pendingCalls, MemberKey(s, name));
    assert [] + now == now;
  }

  lemma SubmitConserves(r: Registry, a: Action, s: ServiceIdentifier, name: Name)
    requires Invariant(r) && Returns(r, a) && (a.SubmitCall? || a.SubmitFuture?)
    ensures Conserved(r, EventsOf(r, a), Step(r, a), s, name)
  {
    hide Step, Invariant, Conserved, Submitted, FutureSubmitted, CallQueued, CanAllocate;
    CounterIsNonZero(r);
    CallStepIs(r, a);
    SubmittedQueues(r, a.call, a.authorized);
    FutureLeavesCalls(r, a.call, a.authorized);
    var plain, queued := Submitted(r, a.call, a.authorized).0, Submitted(r, a.call, a.authorized).1;
    if EventsOf(r, a) == [] {
      NothingHappens(r, Step(r, a), s, name);
    } else {
      SubmissionConserves(r, queued.value, plain, s, name);
      SameQueuesConserve(r, EventsOf(r, a), plain, Step(r, a), s, name);
    }
  }

  lemma SameQueuesConserve(
    r: Registry, events: seq<Event>, plain: Registry, r': Registry, s: ServiceIdentifier, name: Name)
    requires Conserved(r, events, plain, s, name)
    requires r'.pendingCalls == plain.pendingCalls && r'.pendingResults == plain.pendingResults
    ensures Conserved(r, events, r', s, name)
  {
    hide MemberKey, QueueOf, QueuedFor, TakenFor, AnsweredFor, ReturnedFor;
  }

  /** A taken call is one of the method it was taken for. */
  lemma TakenIsOfMethod(r: Registry, s: ServiceIdentifier, name: Name)
    requires CallsOk(r) && CallTaken(r, s, name).1.Some?
    ensures var c := CallTaken(r, s, name).1.value; c.service == s && c.methodName == name
  {
    hide MemberKey, IsOffered, Popped;
    var c := CallTaken(r, s, name).1.value;
    MemberKeyIsInjective(s, name, c.service, c.methodName);
  }

  lemma PoppedElsewhere<T>(m: map<Name, seq<T>>, key: Name, other: Name)
    requires key in m && m[key] != [] && other != key
    ensures QueueOf(Popped(m, key), other) == QueueOf(m, other)
  {
  }

  lemma TakeConserves(r: Registry, t: ServiceIdentifier, m: Name, s: ServiceIdentifier, name: Name)
    requires CallsOk(r) && CallTaken(r, t, m).1.Some?
    ensures var (r', taken) := CallTaken(r, t, m);
      Conserved(r, [Taken(taken.value)], r', s, name)
  {
    hide MemberKey, IsOffered, Popped, QueueOf, QueuedFor, TakenFor, AnsweredFor, ReturnedFor, CallsOk;
    TakenIsOfMethod(r, t, m);
    var (r', taken) := CallTaken(r, t, m);
    Single(Taken(taken.value), s, name);
    MemberKeyIsInjective(s, name, t, m);
    var before, now := QueueOf(r.pendingCalls, MemberKey(s, name)), QueueOf(r'.pendingCalls, MemberKey(s, name));
    assert before + [] == before && [] + now == now;
    if t == s && m == name {
      PoppedFront(r.pendingCalls, MemberKey(s, name));
    } else {
      PoppedElsewhere(r.pendingCalls, MemberKey(t, m), MemberKey(s, name));
    }
  }

  lemma CompletionConserves(r: Registry, x: MethodResult, authorized: bool, s: ServiceIdentifier, name: Name)
    requires CallCompleted(r, x, authorized).1.Some?
    ensures var r' := CallCompleted(r, x, authorized).0;
      x.correlationId in r.inFlight && Conserved(r, [Answered(r.inFlight[x.correlationId], x)], r', s, name)
  {
    hide MemberKey, IsOffered, Pushed, QueueOf, QueuedFor, TakenFor, AnsweredFor, ReturnedFor;
    Single(Answered(r.inFlight[x.correlationId], x), s, name);
    PushedElsewhere(r.pendingResults, MemberKey(x.service, x.methodName), x, MemberKey(s, name));
    MemberKeyIsInjective(s, name, x.service, x.methodName);
    var calls := QueueOf(r.pendingCalls, MemberKey(s, name));
    assert calls + [] == [] + calls;
  }

  lemma OneOut<T>(queue: seq<T>, i: nat)
    requires i < |queue|
    ensures multiset(queue) == multiset([queue[i]]) + multiset(queue[..i] + queue[i + 1..])
  {
    assert queue == queue[..i] + [queue[i]] + queue[i + 1..];
  }

  lemma RemovedElsewhere<T>(m: map<Name, seq<T>>, key: Name, i: nat, other: Name)
    requires key in m && i < |m[key]|
    ensures QueueOf(RemovedAt(m, key, i), other)
      == if other == key then m[key][..i] + m[key][i + 1..] else QueueOf(m, other)
  {
  }

  lemma ReturnConserves(r: Registry, t: ServiceIdentifier, m: Name, id: U64, s: ServiceIdentifier, name: Name)
    requires ResultsOk(r) && ResultTaken(r, t, m, id).1.Some?
    ensures var (r', returned) := ResultTaken(r, t, m, id);
      Conserved(r, [Returned(returned.value)], r', s, name)
  {
    hide MemberKey, IsOffered, RemovedAt, QueueOf, QueuedFor, TakenFor, AnsweredFor, ReturnedFor, ResultsOk;
    var (r', returned) := ResultTaken(r, t, m, id);
    var key := MemberKey(t, m);
    var queue, i := r.pendingResults[key], FindResult(r.pendingResults[key], id);
    ReturnedIsOfMethod(r, t, m, i);
    Single(Returned(returned.value), s, name);
    MemberKeyIsInjective(s, name, t, m);
    RemovedElsewhere(r.pendingResults, key, i, MemberKey(s, name));
    OneOut(queue, i);
    QueueIs(r.pendingResults, key);
    var calls := QueueOf(r.pendingCalls, MemberKey(s, name));
    assert calls + [] == [] + calls;
  }

  lemma QueueIs<T>(m: map<Name, seq<T>>, key: Name)
    requires key in m
    ensures QueueOf(m, key) == m[key]
  {
  }

  lemma ReturnedIsOfMethod(r: Registry, s: ServiceIdentifier, name: Name, i: nat)
    requires ResultsOk(r) && MemberKey(s, name) in r.pendingResults && i < |r.pendingResults[MemberKey(s, name)]|
    ensures var x := r.pendingResults[MemberKey(s, name)][i]; x.service == s && x.methodName == name
  {
    hide MemberKey, IsOffered;
    var x := r.pendingResults[MemberKey(s, name)][i];
    MemberKeyIsInjective(s, name, x.service, x.methodName);
  }

  lemma StopConserves(r: Registry, t: ServiceIdentifier, failed: bool, s: ServiceIdentifier, name: Name)
    requires t != s
    ensures Conserved(r, [], Stopped(r, t, failed).0, s, name)
  {
    hide KeyFor, MemberKey, QueueOf, WithoutPrefix, CallsExcept, FuturesExcept, FuturesOf, AllCancelled, QueuesExcept;
    hide Conserved;
    ExceptOthers(r.pendingCalls, t, s, name);
    ExceptOthers(r.pendingResults, t, s, name);
    NothingHappens(r, Stopped(r, t, failed).0, s, name);
  }

  lemma ExceptOthers<T>(m: map<Name, seq<T>>, t: ServiceIdentifier, s: ServiceIdentifier, name: Name)
    requires t != s
    ensures QueueOf(WithoutPrefix(m, KeyFor(t) + COLON), MemberKey(s, name)) == QueueOf(m, MemberKey(s, name))
  {
    hide KeyFor, MemberKey, WithoutPrefix;
    PrefixFilter(m, t, s, name);
  }

  lemma StepConserves(r: Registry, a: Action, s: ServiceIdentifier, name: Name)
    requires Invariant(r) && Returns(r, a) && !(a.StopService? && a.service == s)
    ensures Conserved(r, EventsOf(r, a), Step(r, a), s, name)
  {
    hide Step, Conserved, Submitted, FutureSubmitted, CallTaken, CallCompleted, ResultTaken, Stopped;
    hide UniquePlaces, CallsOk, ResultsOk, FuturesOk, FieldsOk, CanAllocate;
    CallStepIs(r, a);
    if a.SubmitCall? || a.SubmitFuture? {
      SubmitConserves(r, a, s, name);
    } else if a.StopService? {
      StopConserves(r, a.service, a.failed, s, name);
    } else if EventsOf(r, a) == [] {
      QuietStep(r, a);
      NothingHappens(r, Step(r, a), s, name);
    } else if a.TakeCall? {
      TakeConserves(r, a.service, a.name, s, name);
    } else if a.CompleteCall? {
      CompletionAnswers(r, a.result, a.authorized);
      CompletionConserves(r, a.result, a.authorized, s, name);
    } else {
      ReturnConserves(r, a.service, a.name, a.id, s, name);
    }
  }

  /** A step that hands out nothing leaves calls and results alone. */
  lemma QuietStep(r: Registry, a: Action)
    requires Returns(r, a) && EventsOf(r, a) == [] && !a.SubmitCall? && !a.SubmitFuture? && !a.StopService?
    ensures SameCalls(r, Step(r, a))
  {
    hide Step, CanAllocate, Submitted, FutureSubmitted, Stopped;
    CallStepIs(r, a);
    if a.TakeCall? {
      OldestCallIsTaken(r, a.service, a.name);
    } else if a.CompleteCall? {
      CompletionAnswers(r, a.result, a.authorized);
    } else if a.TakeResult? {
      RightResultIsReturned(r, a.service, a.name, a.id);
    } else {
      OthersLeaveCalls(r, a);
    }
  }

  // ----- runs -----

  /**
   As long as the service is not stopped, over every run: the calls of each of its methods are taken in
   exactly the order in which they were queued, none left out and none twice; and the results given for it are
   those returned and those still queued, none lost and none doubled.
   */
  lemma {:induction false} NothingIsLost(
    states: seq<Registry>, actions: seq<Action>, s: ServiceIdentifier, name: Name)
    requires IsRun(states, actions) && Invariant(states[0])
    requires forall i :: 0 <= i < |actions| ==> !(actions[i].StopService? && actions[i].service == s)
    ensures Invariant(states[|actions|]) && Conserved(states[0], Log(states, actions), states[|actions|], s, name)
    decreases |actions|
  {
    hide Step, Invariant, Returns, EventsOf, Conserved;
    if actions == [] {
      NothingHappens(states[0], states[0], s, name);
    } else {
      var n := |actions| - 1;
      NothingIsLost(states[..n + 1], actions[..n], s, name);
      assert states[n + 1] == Step(states[n], actions[n]) && Returns(states[n], actions[n]);
      StepKeepsInvariant(states[n], actions[n]);
      StepConserves(states[n], actions[n], s, name);
      AtMostOne(states[n], actions[n]);
      Further(
        states[0], Log(states[..n + 1], actions[..n]), states[n], EventsOf(states[n], actions[n]), states[n + 1],
        s, name);
    }
  }

  lemma AtMostOne(r: Registry, a: Action)
    requires Returns(r, a)
    ensures |EventsOf(r, a)| <= 1
  {
    hide Submitted, FutureSubmitted, CallTaken, CallCompleted, ResultTaken, CanAllocate;
  }

  lemma Further(
    r: Registry, log: seq<Event>, r1: Registry, events: seq<Event>, r2: Registry, s: ServiceIdentifier, name: Name)
    requires Conserved(r, log, r1, s, name) && Conserved(r1, events, r2, s, name) && |events| <= 1
    ensures Conserved(r, log + events, r2, s, name)
  {
    hide QueueOf, MemberKey, QueuedFor, TakenFor, AnsweredFor, ReturnedFor;
    var key := MemberKey(s, name);
    OneMore(log, events, s, name);
    Joined(
      QueueOf(r.pendingCalls, key), QueuedFor(log, s, name), TakenFor(log, s, name), QueueOf(r1.pendingCalls, key),
      QueuedFor(events, s, name), TakenFor(events, s, name), QueueOf(r2.pendingCalls, key));
    JoinedBags(
      QueueOf(r.pendingResults, key), AnsweredFor(log, s, name), ReturnedFor(log, s, name),
      QueueOf(r1.pendingResults, key), AnsweredFor(events, s, name), ReturnedFor(events, s, name),
      QueueOf(r2.pendingResults, key));
  }

  lemma Joined<T>(q: seq<T>, came: seq<T>, went: seq<T>, q1: seq<T>, came1: seq<T>, went1: seq<T>, q2: seq<T>)
    requires q + came == went + q1 && q1 + came1 == went1 + q2
    ensures q + (came + came1) == (went + went1) + q2
  {
    calc {
      q + (came + came1);
      (q + came) + came1;
      (went + q1) + came1;
      went + (q1 + came1);
      went + (went1 + q2);
      (went + went1) + q2;
    }
  }

  lemma JoinedBags<T>(q: seq<T>, came: seq<T>, went: seq<T>, q1: seq<T>, came1: seq<T>, went1: seq<T>, q2: seq<T>)
    requires multiset(q) + multiset(came) == multiset(went) + multiset(q1)
    requires multiset(q1) + multiset(came1) == multiset(went1) + multiset(q2)
    ensures multiset(q) + multiset(came + came1) == multiset(went + went1) + multiset(q2)
  {
    calc {
      multiset(q) + multiset(came + came1);
      (multiset(q) + multiset(came)) + multiset(came1);
      multiset(went) + (multiset(q1) + multiset(came1));
      multiset(went + went1) + multiset(q2);
    }
  }
}
