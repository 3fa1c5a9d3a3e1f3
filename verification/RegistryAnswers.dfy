/** What the calls on the registry return, and how results come back to the calls they answer. */
module RegistryAnswers {
  import opened Bytes
  import opened ServiceTypes
  import opened ServiceKeys
  import Q = SubscriptionQueue
  import opened ServiceRegistry
  import opened RegistryCalls
  import opened RegistryRuns

  // ----- the log of what was returned -----

  datatype Event =
    | Queued(call: MethodCall)
    | Taken(call: MethodCall)
    | Answered(call: MethodCall, result: MethodResult)
    | Returned(result: MethodResult)

  /** What the step handed to its caller, and for a completion the call that was in flight. */
  function EventsOf(r: Registry, a: Action): seq<Event>
    requires Returns(r, a)
  {
    match a
    case SubmitCall(c, authorized) =>
      var queued := Submitted(r, c, authorized).1;
      if queued.None? then [] else [Queued(queued.value)]
    case SubmitFuture(c, authorized) =>
      var queued := FutureSubmitted(r, c, authorized).1;
      if queued.None? then [] else [Queued(queued.value.call)]
    case TakeCall(s, name) =>
      var taken := CallTaken(r, s, name).1;
      if taken.None? then [] else [Taken(taken.value)]
    case CompleteCall(x, authorized) =>
      var completed := CallCompleted(r, x, authorized).1;
      if completed.None? || x.correlationId !in r.inFlight then []
      else [Answered(r.inFlight[x.correlationId], completed.value)]
    case TakeResult(s, name, id) =>
      var returned := ResultTaken(r, s, name, id).1;
      if returned.None? then [] else [Returned(returned.value)]
    case _ => []
  }

  function Log(states: seq<Registry>, actions: seq<Action>): seq<Event>
    requires |states| == |actions| + 1
    requires forall i :: 0 <= i < |actions| ==> Returns(states[i], actions[i])
  {
    if actions == [] then []
    else
      var n := |actions| - 1;
      Log(states[..n + 1], actions[..n]) + EventsOf(states[n], actions[n])
  }

  // ----- what each call returns -----

  /** A call is queued as given, under its own id or a new one that is free and not zero. */
  lemma SubmissionQueues(r: Registry, c: MethodCall, authorized: bool)
    requires r.nextCorrelationId != 0 && (c.correlationId == 0 ==> CanAllocate(r))
    ensures var (r', queued) := Submitted(r, c, authorized);
      && (queued.Some? <==>
            && IsOffered(r.offers, c.service) && c.methodName != [] && authorized
            && c.correlationId !in KnownIds(r) - {0})
      && (queued.Some? ==>
            var q := queued.value;
            && q == c.(correlationId := q.correlationId) && q.correlationId != 0 && q.correlationId !in KnownIds(r)
            && (c.correlationId != 0 ==> q == c)
            && QueueOf(r'.pendingCalls, MemberKey(c.service, c.methodName))
                 == QueueOf(r.pendingCalls, MemberKey(c.service, c.methodName)) + [q])
      && (queued.None? ==> r' == r)
  {
    hide KnownIds, KeyFor, MemberKey, Candidate, IsOffered;
    if c.correlationId == 0 {
      SomeIdIsFree(KnownIds(r), r.nextCorrelationId);
    }
  }

  function QueueOf<T>(m: map<Name, seq<T>>, key: Name): seq<T> {
    if key in m then m[key] else []
  }

  /** A future is handed out for every call that is queued and expects a response, and for no other. */
  lemma SubmissionPromises(r: Registry, c: MethodCall, authorized: bool)
    requires c.correlationId == 0 ==> CanAllocate(r)
    ensures var (r', future) := FutureSubmitted(r, c, authorized);
      var (plain, queued) := Submitted(r, c, authorized);
      && (future.Some? <==> c.expectsResponse && queued.Some?)
      && (future.Some? ==>
            && future.value == FutureState(queued.value, r.nextFuture) && r'.nextFuture == r.nextFuture + 1
            && r'.pendingCalls == plain.pendingCalls
            && (queued.value.correlationId !in r.futures ==> r'.futures[queued.value.correlationId] == future.value))
      && (future.None? ==> r' == r)
  {
    hide KnownIds, KeyFor, MemberKey, Candidate, IsOffered, Pushed;
  }

  /** The oldest call of the method is taken, and is in flight from then on if it expects a response. */
  lemma OldestCallIsTaken(r: Registry, s: ServiceIdentifier, name: Name)
    ensures var (r', taken) := CallTaken(r, s, name);
      var before, after := QueueOf(r.pendingCalls, MemberKey(s, name)), QueueOf(r'.pendingCalls, MemberKey(s, name));
      && (taken.Some? <==> IsOffered(r.offers, s) && name != [] && before != [])
      && (taken.Some? ==>
            && before == [taken.value] + after
            && r'.inFlight == if taken.value.expectsResponse
                 then r.inFlight[taken.value.correlationId := taken.value] else r.inFlight)
      && (taken.None? ==> r' == r)
  {
    hide MemberKey, IsOffered, Popped, QueueOf;
    if CallTaken(r, s, name).1.Some? {
      PoppedFront(r.pendingCalls, MemberKey(s, name));
    }
    NoneToTake(r.pendingCalls, MemberKey(s, name));
  }

  lemma PoppedFront<T>(m: map<Name, seq<T>>, key: Name)
    requires key in m && m[key] != []
    ensures QueueOf(m, key) == [m[key][0]] + QueueOf(Popped(m, key), key)
  {
  }

  lemma NoneToTake<T>(m: map<Name, seq<T>>, key: Name)
    ensures QueueOf(m, key) != [] <==> key in m && m[key] != []
  {
  }

  /** A result is accepted for a call in flight on that very method, queued, returned, and settles the call's future. */
  lemma CompletionAnswers(r: Registry, x: MethodResult, authorized: bool)
    ensures var (r', completed) := CallCompleted(r, x, authorized);
      var id, key := x.correlationId, MemberKey(x.service, x.methodName);
      && (completed.Some? <==>
            && IsOffered(r.offers, x.service) && x.methodName != [] && id != 0 && authorized && id in r.inFlight
            && r.inFlight[id].service == x.service && r.inFlight[id].methodName == x.methodName)
      && (completed.Some? ==>
            && completed.value == x && id !in r'.inFlight && id !in r'.futures
            && QueueOf(r'.pendingResults, key) == QueueOf(r.pendingResults, key) + [x]
            && (id in r.futures ==>
                  r.futures[id].future in r'.settled && r'.settled[r.futures[id].future] == Completed(x)))
      && (completed.None? ==> r' == r)
  {
    hide MemberKey, IsOffered;
  }

  /** The result returned has the id asked for; it and no other leaves the queue of the method. */
  lemma RightResultIsReturned(r: Registry, s: ServiceIdentifier, name: Name, id: U64)
    ensures var (r', returned) := ResultTaken(r, s, name, id);
      var key := MemberKey(s, name);
      var before, after := QueueOf(r.pendingResults, key), QueueOf(r'.pendingResults, key);
      && (returned.Some? <==>
            && s.interfaceId != 0 && s.instanceId != 0 && name != [] && id != 0
            && exists x :: x in before && x.correlationId == id)
      && (returned.Some? ==>
            && returned.value.correlationId == id
            && exists i :: 0 <= i < |before| && before[i] == returned.value && after == before[..i] + before[i + 1..])
      && (returned.None? ==> r' == r)
      && forall k :: k != key ==> QueueOf(r'.pendingResults, k) == QueueOf(r.pendingResults, k)
  {
    hide MemberKey;
    var key := MemberKey(s, name);
    var before := QueueOf(r.pendingResults, key);
    var i := FindResult(before, id);
    if i < |before| {
      assert before[i] in before;
    } else {
      assert forall x :: x in before ==> x.correlationId != id;
    }
    if ResultTaken(r, s, name, id).1.Some? {
      var after := QueueOf(ResultTaken(r, s, name, id).0.pendingResults, key);
      assert after == before[..i] + before[i + 1..];
    }
  }

  /** In a reachable state it is the one result with that id, wherever results are queued. */
  lemma ReturnedResultIsTheOnlyOne(r: Registry, s: ServiceIdentifier, name: Name, id: U64, k: Name, i: nat)
    requires Invariant(r) && ResultTaken(r, s, name, id).1.Some?
    requires k in r.pendingResults && i < |r.pendingResults[k]| && r.pendingResults[k][i].correlationId == id
    ensures k == MemberKey(s, name) && r.pendingResults[k][i] == ResultTaken(r, s, name, id).1.value
  {
    hide MemberKey, CallsOk, ResultsOk, FuturesOk, FieldsOk;
    var key := MemberKey(s, name);
    var j := FindResult(r.pendingResults[key], id);
    assert At(r, id, Finished(k, i)) && At(r, id, Finished(key, j));
  }

  // ----- where calls and results come from -----

  /** Queued calls were submitted, calls in flight taken, and queued results given as answers to calls taken before. */
  ghost predicate Traced(log: seq<Event>, r: Registry) {
    && (forall k, i :: k in r.pendingCalls && 0 <= i < |r.pendingCalls[k]| ==> Queued(r.pendingCalls[k][i]) in log)
    && (forall id <- r.inFlight :: Taken(r.inFlight[id]) in log)
    && forall k, i :: k in r.pendingResults && 0 <= i < |r.pendingResults[k]| ==>
         HasAnswered(log, r.pendingResults[k][i])
  }

  ghost predicate HasAnswered(log: seq<Event>, x: MethodResult) {
    exists c: MethodCall :: Answered(c, x) in log
  }

  /**
   Every call taken was submitted before; every answer is one to a call taken before, with its id, service and
   method; and every result returned was given as an answer before.
   */
  ghost predicate LogIsTraced(log: seq<Event>) {
    forall i :: 0 <= i < |log| ==>
      match log[i]
      case Queued(_) => true
      case Taken(c) => Queued(c) in log[..i]
      case Answered(c, x) =>
        Taken(c) in log[..i]
        && x.correlationId == c.correlationId && x.service == c.service && x.methodName == c.methodName
      case Returned(x) => HasAnswered(log[..i], x)
  }

  lemma LogGrows(log: seq<Event>, e: Event)
    requires LogIsTraced(log)
    requires match e
      case Queued(_) => true
      case Taken(c) => Queued(c) in log
      case Answered(c, x) =>
        Taken(c) in log
        && x.correlationId == c.correlationId && x.service == c.service && x.methodName == c.methodName
      case Returned(x) => HasAnswered(log, x)
    ensures LogIsTraced(log + [e])
  {
    hide HasAnswered;
    var more := log + [e];
    forall i | 0 <= i < |log|
      ensures more[i] == log[i] && more[..i] == log[..i]
    {
    }
    assert more[..|log|] == log;
  }

  lemma MoreIsTraced(log: seq<Event>, more: seq<Event>, r: Registry)
    requires Traced(log, r)
    ensures Traced(log + more, r)
  {
    forall x | HasAnswered(log, x)
      ensures HasAnswered(log + more, x)
    {
      var c :| Answered(c, x) in log;
      assert Answered(c, x) in log + more;
    }
  }

  // ----- one step -----

  lemma SubmitTraced(log: seq<Event>, r: Registry, c: MethodCall, authorized: bool)
    requires Traced(log, r) && r.nextCorrelationId != 0 && (c.correlationId == 0 ==> CanAllocate(r))
    ensures var (r', queued) := Submitted(r, c, authorized);
      Traced(log + (if queued.None? then [] else [Queued(queued.value)]), r')
  {
    hide Submitted, KnownIds, HasAnswered, MemberKey, IsOffered, Pushed;
    SubmittedQueues(r, c, authorized);
    var queued := Submitted(r, c, authorized).1;
    if queued.None? {
      assert log + [] == log;
    } else {
      MoreIsTraced(log, [Queued(queued.value)], r);
      PushedQueue(r.pendingCalls, MemberKey(queued.value.service, queued.value.methodName), queued.value);
    }
  }

  lemma FutureLeavesCalls(r: Registry, c: MethodCall, authorized: bool)
    requires c.correlationId == 0 ==> CanAllocate(r)
    ensures var (r', future) := FutureSubmitted(r, c, authorized);
      var (plain, queued) := Submitted(r, c, authorized);
      if future.None? then r' == r
      else
        && queued.Some? && queued.value == future.value.call
        && r' == plain.(futures := r'.futures, nextFuture := r'.nextFuture)
  {
    hide KnownIds, MemberKey, IsOffered, Identified, Pushed, Emplaced;
  }

  lemma FutureTraced(log: seq<Event>, r: Registry, c: MethodCall, authorized: bool)
    requires Traced(log, r) && r.nextCorrelationId != 0 && (c.correlationId == 0 ==> CanAllocate(r))
    ensures var (r', future) := FutureSubmitted(r, c, authorized);
      Traced(log + (if future.None? then [] else [Queued(future.value.call)]), r')
  {
    hide Submitted, FutureSubmitted, HasAnswered;
    FutureLeavesCalls(r, c, authorized);
    SubmitTraced(log, r, c, authorized);
    assert log + [] == log;
  }

  lemma TakeTraced(log: seq<Event>, r: Registry, s: ServiceIdentifier, name: Name)
    requires Traced(log, r)
    ensures var (r', taken) := CallTaken(r, s, name);
      && (taken.Some? ==> Queued(taken.value) in log)
      && Traced(log + (if taken.None? then [] else [Taken(taken.value)]), r')
  {
    hide HasAnswered, MemberKey, IsOffered, Popped;
    var taken, key := CallTaken(r, s, name).1, MemberKey(s, name);
    if taken.None? {
      assert log + [] == log;
    } else {
      MoreIsTraced(log, [Taken(taken.value)], r);
      PoppedQueue(r.pendingCalls, key);
    }
  }

  lemma CompleteTraced(log: seq<Event>, r: Registry, x: MethodResult, authorized: bool)
    requires Traced(log, r) && CallsOk(r)
    ensures var (r', completed) := CallCompleted(r, x, authorized);
      if completed.None? then r' == r
      else
        && x.correlationId in r.inFlight && completed.value == x
        && var c := r.inFlight[x.correlationId];
           && Taken(c) in log && c.correlationId == x.correlationId
           && c.service == x.service && c.methodName == x.methodName
           && Traced(log + [Answered(c, x)], r')
  {
    hide MemberKey, IsOffered, Pushed;
    var completed := CallCompleted(r, x, authorized).1;
    if completed.Some? {
      var c := r.inFlight[x.correlationId];
      MoreIsTraced(log, [Answered(c, x)], r);
      assert Answered(c, x) in log + [Answered(c, x)];
      PushedQueue(r.pendingResults, MemberKey(x.service, x.methodName), x);
    }
  }

  lemma ReturnTraced(log: seq<Event>, r: Registry, s: ServiceIdentifier, name: Name, id: U64)
    requires Traced(log, r)
    ensures var (r', returned) := ResultTaken(r, s, name, id);
      && (returned.Some? ==> HasAnswered(log, returned.value))
      && Traced(log + (if returned.None? then [] else [Returned(returned.value)]), r')
  {
    hide HasAnswered, MemberKey;
    var (r', returned) := ResultTaken(r, s, name, id);
    if returned.None? {
      assert log + [] == log;
    } else {
      var key := MemberKey(s, name);
      var queue, i := r.pendingResults[key], FindResult(r.pendingResults[key], id);
      assert returned.value == queue[i];
      MoreIsTraced(log, [Returned(returned.value)], r);
      forall k, j | k in r'.pendingResults && 0 <= j < |r'.pendingResults[k]|
        ensures HasAnswered(log + [Returned(returned.value)], r'.pendingResults[k][j])
      {
        if k == key {
          assert r'.pendingResults[k][j] == if j < i then queue[j] else queue[j + 1];
        }
      }
    }
  }

  lemma StopTraced(log: seq<Event>, r: Registry, s: ServiceIdentifier, failed: bool)
    requires Traced(log, r)
    ensures Traced(log, Stopped(r, s, failed).0)
  {
    hide HasAnswered, KeyFor, FuturesExcept, FuturesOf, AllCancelled, QueuesExcept;
  }

  predicate SameCalls(r: Registry, r': Registry) {
    r'.pendingCalls == r.pendingCalls && r'.inFlight == r.inFlight && r'.pendingResults == r.pendingResults
  }

  lemma EventSubscribingLeavesCalls(r: Registry, s: ServiceIdentifier, name: Name, depth: nat, authorized: bool)
    ensures SameCalls(r, EventSubscribed(r, s, name, depth, authorized).0)
  {
    hide NewSubscription, Emplaced, Seed, Increment;
    var sub := NewSubscription(r, s, name, depth, authorized);
    if sub.Some? {
      assert EventSubscribed(r, s, name, depth, authorized).0 == r.(
        nextSubscriptionId := Increment(r.nextSubscriptionId),
        subscriptions := Emplaced(r.subscriptions, sub.value.id, Q.QueueState(sub.value, [])));
    }
  }

  lemma FieldSubscribingLeavesCalls(r: Registry, s: ServiceIdentifier, name: Name, depth: nat, authorized: bool)
    ensures SameCalls(r, FieldSubscribed(r, s, name, depth, authorized).0)
  {
    hide NewSubscription, Emplaced, Seed, Increment;
    var sub := NewSubscription(r, s, name, depth, authorized);
    if sub.Some? {
      assert FieldSubscribed(r, s, name, depth, authorized).0 == r.(
        nextSubscriptionId := Increment(r.nextSubscriptionId),
        fieldSubscriptions := Emplaced(r.fieldSubscriptions, sub.value.id, Q.QueueState(sub.value, Seed(r, s, name))));
    }
  }

  lemma TriggerSubscribingLeavesCalls(r: Registry, s: ServiceIdentifier, name: Name, depth: nat, authorized: bool)
    ensures SameCalls(r, TriggerSubscribed(r, s, name, depth, authorized).0)
  {
    hide NewSubscription, Emplaced, Seed, Increment;
    var sub := NewSubscription(r, s, name, depth, authorized);
    if sub.Some? {
      assert TriggerSubscribed(r, s, name, depth, authorized).0 == r.(
        nextSubscriptionId := Increment(r.nextSubscriptionId),
        triggerSubscriptions := Emplaced(r.triggerSubscriptions, sub.value.id, Q.QueueState(sub.value, [])));
    }
  }

  lemma PublishingLeavesCalls(r: Registry, x: EventSample, authorized: bool)
    ensures SameCalls(r, Published(r, x, authorized).0)
  {
    hide IsOffered, DeliveredToAll, Increment;
  }

  lemma SettingLeavesCalls(r: Registry, v: FieldValue, authorized: bool)
    ensures SameCalls(r, FieldSet(r, v, authorized).0)
  {
    hide IsOffered, MemberKey, DeliveredToAll, Increment;
  }

  lemma FiringLeavesCalls(r: Registry, x: TriggerActivation, authorized: bool)
    ensures SameCalls(r, TriggerFired(r, x, authorized).0)
  {
    hide IsOffered, DeliveredToAll, Increment;
  }

  lemma OfferingLeavesCalls(r: Registry, o: Offer, authorized: bool)
    ensures SameCalls(r, Offered(r, o, authorized).0)
  {
    hide ValidOffer, KeyFor;
  }

  lemma UnsubscribingLeavesCalls(r: Registry, id: U64)
    ensures SameCalls(r, Unsubscribed(r, id).0)
  {
    hide WithoutId;
  }

  lemma OthersLeaveCalls(r: Registry, a: Action)
    requires Returns(r, a) && !TouchesCalls(a)
    ensures SameCalls(r, Step(r, a))
  {
    hide Offered, EventSubscribed, FieldSubscribed, TriggerSubscribed, Unsubscribed, Published, FieldSet;
    hide TriggerFired, Polled, Stopped, Submitted, FutureSubmitted, CallTaken, CallCompleted, ResultTaken;
    match a
    case Subscribe(s, name, depth, authorized) => EventSubscribingLeavesCalls(r, s, name, depth, authorized);
    case SubscribeField(s, name, depth, authorized) => FieldSubscribingLeavesCalls(r, s, name, depth, authorized);
    case SubscribeTrigger(s, name, depth, authorized) => TriggerSubscribingLeavesCalls(r, s, name, depth, authorized);
    case Publish(x, authorized) => PublishingLeavesCalls(r, x, authorized);
    case SetField(v, authorized) => SettingLeavesCalls(r, v, authorized);
    case FireTrigger(t, authorized) => FiringLeavesCalls(r, t, authorized);
    case OfferService(o, authorized) => OfferingLeavesCalls(r, o, authorized);
    case Unsubscribe(id) => UnsubscribingLeavesCalls(r, id);
    case _ =>
  }

  lemma SameCallsTraced(log: seq<Event>, r: Registry, r': Registry)
    requires Traced(log, r) && SameCalls(r, r')
    ensures Traced(log, r')
  {
    hide HasAnswered;
  }

  /** What the steps of a call's life do, seen from the actions. */
  lemma CallStepIs(r: Registry, a: Action)
    requires Returns(r, a)
    ensures a.SubmitCall? ==> Step(r, a) == Submitted(r, a.call, a.authorized).0
    ensures a.SubmitFuture? ==> Step(r, a) == FutureSubmitted(r, a.call, a.authorized).0
    ensures a.TakeCall? ==> Step(r, a) == CallTaken(r, a.service, a.name).0
    ensures a.CompleteCall? ==> Step(r, a) == CallCompleted(r, a.result, a.authorized).0
    ensures a.TakeResult? ==> Step(r, a) == ResultTaken(r, a.service, a.name, a.id).0
    ensures a.StopService? ==> Step(r, a) == Stopped(r, a.service, a.failed).0
  {
    hide Submitted, FutureSubmitted, CallTaken, CallCompleted, ResultTaken, Stopped, CanAllocate;
    hide EventSubscribed, FieldSubscribed, TriggerSubscribed, Unsubscribed, Published, FieldSet, TriggerFired, Polled;
    hide Offered;
  }

  lemma StepIsTraced(log: seq<Event>, r: Registry, a: Action)
    requires Traced(log, r) && LogIsTraced(log) && Invariant(r) && Returns(r, a)
    ensures Traced(log + EventsOf(r, a), Step(r, a)) && LogIsTraced(log + EventsOf(r, a))
  {
    hide Step, Traced, LogIsTraced, HasAnswered, UniquePlaces, ResultsOk, FuturesOk, FieldsOk, CallsOk, CanAllocate;
    hide Submitted, FutureSubmitted, CallTaken, CallCompleted, ResultTaken, Stopped;
    CallStepIs(r, a);
    assert log + [] == log;
    if a.SubmitCall? {
      SubmitTraced(log, r, a.call, a.authorized);
      if EventsOf(r, a) != [] {
        LogGrows(log, EventsOf(r, a)[0]);
      }
    } else if a.SubmitFuture? {
      FutureTraced(log, r, a.call, a.authorized);
      if EventsOf(r, a) != [] {
        LogGrows(log, EventsOf(r, a)[0]);
      }
    } else if a.TakeCall? {
      TakeTraced(log, r, a.service, a.name);
      if EventsOf(r, a) != [] {
        LogGrows(log, EventsOf(r, a)[0]);
      }
    } else if a.CompleteCall? {
      CompleteTraced(log, r, a.result, a.authorized);
      if EventsOf(r, a) != [] {
        LogGrows(log, EventsOf(r, a)[0]);
      }
    } else if a.TakeResult? {
      ReturnTraced(log, r, a.service, a.name, a.id);
      if EventsOf(r, a) != [] {
        LogGrows(log, EventsOf(r, a)[0]);
      }
    } else if a.StopService? {
      StopTraced(log, r, a.service, a.failed);
    } else {
      OthersLeaveCalls(r, a);
      SameCallsTraced(log, r, Step(r, a));
    }
  }

  /**
   Over every run: each call taken was submitted before; each answer was given, with the right id, service and
   method, to a call taken before; and each result returned to a caller was given as such an answer before.
   */
  lemma {:induction false} ResultsAnswerTheirCalls(states: seq<Registry>, actions: seq<Action>)
    requires IsRun(states, actions) && states[0] == Empty()
    ensures LogIsTraced(Log(states, actions)) && Traced(Log(states, actions), states[|actions|])
    decreases |actions|
  {
    hide Step, Invariant, Returns, EventsOf, Traced, LogIsTraced;
    InvariantHolds(states, actions);
    if actions == [] {
      NothingToTrace();
    } else {
      var n := |actions| - 1;
      ResultsAnswerTheirCalls(states[..n + 1], actions[..n]);
      assert states[..n + 1][n] == states[n] && states[n + 1] == Step(states[n], actions[n]);
      StepIsTraced(Log(states[..n + 1], actions[..n]), states[n], actions[n]);
    }
  }

  lemma NothingToTrace()
    ensures LogIsTraced([]) && Traced([], Empty())
  {
  }
}
