/** Stopping a service, field and trigger state, and every run of the registry. */
module RegistryRuns {
  import opened Bytes
  import opened ServiceTypes
  import opened ServiceKeys
  import opened SubscriptionQueue
  import opened ServiceRegistry
  import opened RegistryCalls

  // ----- stopping a service -----

  lemma OthersStayOffered(r: Registry, s: ServiceIdentifier, o: Offer, t: ServiceIdentifier)
    requires t != s && IsOffered(r.offers, t)
    ensures IsOffered(r.offers[KeyFor(s) := o], t)
  {
    hide KeyFor;
    KeyIsInjective(s, t);
  }

  /** Filtering by the prefix of a service keeps exactly the member keys of the others. */
  lemma PrefixFilter<V>(m: map<Name, V>, s: ServiceIdentifier, t: ServiceIdentifier, name: Name)
    ensures var m' := WithoutPrefix(m, KeyFor(s) + COLON);
      && (MemberKey(t, name) in m' <==> t != s && MemberKey(t, name) in m)
      && (MemberKey(t, name) in m' ==> m'[MemberKey(t, name)] == m[MemberKey(t, name)])
  {
    hide KeyFor;
    PrefixIdentifiesService(s, t, name);
  }

  /**
   Stopping or invalidating a service leaves none of its calls, results, in-flight calls, futures, field
   values or field and trigger subscriptions, and everything of every other service as it was. Its futures,
   and only those, are cancelled.
   */
  lemma StopErasesExactly(
    r: Registry, s: ServiceIdentifier, failed: bool, t: ServiceIdentifier, name: Name, id: U64, future: nat)
    requires Invariant(r) && KeyFor(s) in r.offers
    ensures var r' := Stopped(r, s, failed).0;
      var key := MemberKey(t, name);
      && (key in r'.pendingCalls <==> t != s && key in r.pendingCalls)
      && (key in r'.pendingCalls ==> r'.pendingCalls[key] == r.pendingCalls[key])
      && (key in r'.pendingResults <==> t != s && key in r.pendingResults)
      && (key in r'.pendingResults ==> r'.pendingResults[key] == r.pendingResults[key])
      && (key in r'.fieldValues <==> t != s && key in r.fieldValues)
      && (key in r'.fieldValues ==> r'.fieldValues[key] == r.fieldValues[key])
      && (id in r'.inFlight <==> id in r.inFlight && r.inFlight[id].service != s)
      && (id in r'.inFlight ==> r'.inFlight[id] == r.inFlight[id])
      && (id in r'.futures <==> id in r.futures && r.futures[id].call.service != s)
      && (id in r'.futures ==> r'.futures[id] == r.futures[id])
      && (id in r'.fieldSubscriptions <==>
            id in r.fieldSubscriptions && r.fieldSubscriptions[id].subscription.service != s)
      && (id in r'.fieldSubscriptions ==> r'.fieldSubscriptions[id] == r.fieldSubscriptions[id])
      && (id in r'.triggerSubscriptions <==>
            id in r.triggerSubscriptions && r.triggerSubscriptions[id].subscription.service != s)
      && (id in r'.triggerSubscriptions ==> r'.triggerSubscriptions[id] == r.triggerSubscriptions[id])
      && r'.subscriptions == r.subscriptions
      && (future in r'.settled && future !in r.settled <==> FutureOfService(r, s, future))
      && (FutureOfService(r, s, future) ==> r'.settled[future] == Cancelled)
      && !IsOffered(r'.offers, s) && (t != s ==> (IsOffered(r'.offers, t) <==> IsOffered(r.offers, t)))
  {
    hide KeyFor, MemberKey, UniquePlaces, CallsOk, ResultsOk, FieldsOk, WithoutPrefix, Active;
    PrefixFilter(r.pendingCalls, s, t, name);
    PrefixFilter(r.pendingResults, s, t, name);
    PrefixFilter(r.fieldValues, s, t, name);
    KeyIsInjective(s, t);
  }

  ghost predicate FutureOfService(r: Registry, s: ServiceIdentifier, future: nat) {
    exists id :: id in r.futures && r.futures[id].future == future && r.futures[id].call.service == s
  }

  /** The registry after a stop, seen entry by entry. */
  ghost predicate ServiceGone(r: Registry, s: ServiceIdentifier, r': Registry) {
    && (forall t: ServiceIdentifier :: t != s && IsOffered(r.offers, t) ==> IsOffered(r'.offers, t))
    && r'.pendingCalls == WithoutPrefix(r.pendingCalls, KeyFor(s) + COLON)
    && r'.pendingResults == WithoutPrefix(r.pendingResults, KeyFor(s) + COLON)
    && r'.fieldValues == WithoutPrefix(r.fieldValues, KeyFor(s) + COLON)
    && r'.inFlight == CallsExcept(r.inFlight, s)
    && r'.futures == FuturesExcept(r.futures, s)
    && r'.settled == r.settled + AllCancelled(FuturesOf(r.futures, s))
    && r'.fieldSubscriptions == QueuesExcept(r.fieldSubscriptions, s)
    && r'.triggerSubscriptions == QueuesExcept(r.triggerSubscriptions, s)
    && r'.nextFuture == r.nextFuture && r'.nextCorrelationId == r.nextCorrelationId
  }

  lemma StopIsServiceGone(r: Registry, s: ServiceIdentifier, failed: bool)
    requires KeyFor(s) in r.offers
    ensures ServiceGone(r, s, Stopped(r, s, failed).0)
  {
    hide KeyFor, WithoutPrefix, CallsExcept, FuturesExcept, FuturesOf, AllCancelled, QueuesExcept, IsOffered;
    forall t: ServiceIdentifier | t != s && IsOffered(r.offers, t)
      ensures IsOffered(Stopped(r, s, failed).0.offers, t)
    {
      var o := r.offers[KeyFor(s)];
      OthersStayOffered(r, s, o.(offered := false, healthy := o.healthy && !failed), t);
    }
  }

  lemma KeptKeyIsOthers(k: Name, s: ServiceIdentifier, t: ServiceIdentifier, name: Name)
    requires k == MemberKey(t, name) && !StartsWith(k, KeyFor(s) + COLON)
    ensures t != s
  {
    hide KeyFor;
    PrefixIdentifiesService(s, t, name);
  }

  lemma StopKeepsCalls(r: Registry, s: ServiceIdentifier, r': Registry)
    requires Invariant(r) && ServiceGone(r, s, r')
    ensures UniquePlaces(r') && CallsOk(r')
  {
    hide KeyFor, MemberKey, IsOffered, UniquePlaces, FuturesOk, ResultsOk, FieldsOk, StartsWith, FuturesExcept;
    hide FuturesOf, QueuesExcept;
    EraseKeepsUnique(r, r');
    forall k, i | k in r'.pendingCalls && 0 <= i < |r'.pendingCalls[k]|
      ensures IsOffered(r'.offers, r'.pendingCalls[k][i].service)
    {
      var c := r.pendingCalls[k][i];
      KeptKeyIsOthers(k, s, c.service, c.methodName);
    }
  }

  lemma StopKeepsResults(r: Registry, s: ServiceIdentifier, r': Registry)
    requires Invariant(r) && ServiceGone(r, s, r')
    ensures ResultsOk(r') && FieldsOk(r')
  {
    hide KeyFor, MemberKey, IsOffered, UniquePlaces, FuturesOk, CallsOk, StartsWith, FuturesExcept, FuturesOf;
    hide CallsExcept;
    forall k, i | k in r'.pendingResults && 0 <= i < |r'.pendingResults[k]|
      ensures IsOffered(r'.offers, r'.pendingResults[k][i].service)
    {
      var x := r.pendingResults[k][i];
      KeptKeyIsOthers(k, s, x.service, x.methodName);
    }
    forall k <- r'.fieldValues
      ensures IsOffered(r'.offers, r'.fieldValues[k].service)
    {
      var v := r.fieldValues[k];
      KeptKeyIsOthers(k, s, v.service, v.fieldName);
    }
  }

  lemma OthersStayActive(r: Registry, s: ServiceIdentifier, r': Registry, c: MethodCall)
    requires ServiceGone(r, s, r') && Active(r, c) && c.service != s
    ensures Active(r', c)
  {
    hide KeyFor, MemberKey, WithoutPrefix, FuturesExcept, FuturesOf, QueuesExcept, IsOffered;
    PrefixFilter(r.pendingCalls, s, c.service, c.methodName);
  }

  lemma CancelledOrUnresolved(r: Registry, s: ServiceIdentifier, r': Registry, t: nat)
    requires FuturesOk(r) && r'.futures == FuturesExcept(r.futures, s) && t < r.nextFuture
    requires r'.settled == r.settled + AllCancelled(FuturesOf(r.futures, s))
    ensures t in r'.settled || Unresolved(r', t)
  {
    hide Active;
    if t !in r.settled {
      var id :| id in r.futures && r.futures[id].future == t;
      if r.futures[id].call.service == s {
        assert t in FuturesOf(r.futures, s);
      } else {
        assert id in r'.futures && r'.futures[id].future == t;
      }
    }
  }

  lemma KeptIsNotCancelled(r: Registry, s: ServiceIdentifier, id: U64)
    requires FuturesOk(r) && id in FuturesExcept(r.futures, s)
    ensures r.futures[id].future !in r.settled + AllCancelled(FuturesOf(r.futures, s))
  {
    hide Active;
  }

  lemma CancelledAreIssued(r: Registry, s: ServiceIdentifier, t: nat)
    requires FuturesOk(r) && t in r.settled + AllCancelled(FuturesOf(r.futures, s))
    ensures t < r.nextFuture
  {
    hide Active;
  }

  lemma StopKeepsFutures(r: Registry, s: ServiceIdentifier, r': Registry)
    requires FuturesOk(r) && ServiceGone(r, s, r')
    ensures FuturesOk(r')
  {
    hide Active, ServiceGone, Unresolved, FuturesOf, AllCancelled;
    StopOnFutures(r, s, r');
    forall id <- r'.futures
      ensures Active(r', r'.futures[id].call) && r'.futures[id].future !in r'.settled
    {
      OthersStayActive(r, s, r', r.futures[id].call);
      KeptIsNotCancelled(r, s, id);
    }
    forall t: nat | t < r'.nextFuture
      ensures t in r'.settled || Unresolved(r', t)
    {
      CancelledOrUnresolved(r, s, r', t);
    }
    forall t: nat | t in r'.settled
      ensures t < r'.nextFuture
    {
      CancelledAreIssued(r, s, t);
    }
  }

  lemma StopOnFutures(r: Registry, s: ServiceIdentifier, r': Registry)
    requires ServiceGone(r, s, r')
    ensures r'.futures == FuturesExcept(r.futures, s) && r'.nextFuture == r.nextFuture
    ensures r'.settled == r.settled + AllCancelled(FuturesOf(r.futures, s))
  {
  }

  lemma StopKeepsInvariant(r: Registry, s: ServiceIdentifier, failed: bool)
    requires Invariant(r)
    ensures Invariant(Stopped(r, s, failed).0)
  {
    hide KeyFor, UniquePlaces, CallsOk, ResultsOk, FuturesOk, FieldsOk, Stopped;
    if KeyFor(s) in r.offers {
      var r' := Stopped(r, s, failed).0;
      StopIsServiceGone(r, s, failed);
      StopKeepsCalls(r, s, r');
      StopKeepsResults(r, s, r');
      StopKeepsFutures(r, s, r');
      StopKeepsCounter(r, s, r');
    } else {
      NotStopped(r, s, failed);
    }
  }

  lemma StopKeepsCounter(r: Registry, s: ServiceIdentifier, r': Registry)
    requires ServiceGone(r, s, r')
    ensures r'.nextCorrelationId == r.nextCorrelationId
  {
  }

  lemma NotStopped(r: Registry, s: ServiceIdentifier, failed: bool)
    requires KeyFor(s) !in r.offers
    ensures Stopped(r, s, failed).0 == r
  {
  }

  // ----- the other operations -----

  /** Nothing the invariant speaks of has changed, except perhaps fields, subscriptions and more offers. */
  ghost predicate SameLifecycle(r: Registry, r': Registry) {
    && r'.pendingCalls == r.pendingCalls && r'.inFlight == r.inFlight && r'.pendingResults == r.pendingResults
    && r'.futures == r.futures && r'.settled == r.settled && r'.nextFuture == r.nextFuture
    && r'.nextCorrelationId == r.nextCorrelationId
    && forall t: ServiceIdentifier :: IsOffered(r.offers, t) ==> IsOffered(r'.offers, t)
  }

  lemma LifecycleStays(r: Registry, r': Registry)
    requires Invariant(r) && SameLifecycle(r, r') && FieldsOk(r')
    ensures Invariant(r')
  {
    hide IsOffered, MemberKey, InQueue, FieldsOk;
    PlacesMove(r, r', (id: U64, p: Place) => p);
    SameFutures(r, r');
  }

  lemma OfferKeepsInvariant(r: Registry, o: Offer, authorized: bool)
    requires Invariant(r)
    ensures Invariant(Offered(r, o, authorized).0)
  {
    hide KeyFor, UniquePlaces, CallsOk, ResultsOk, FuturesOk, MemberKey;
    LifecycleStays(r, Offered(r, o, authorized).0);
  }

  lemma FieldsKeepInvariant(r: Registry, v: FieldValue, authorized: bool)
    requires Invariant(r)
    ensures Invariant(FieldSet(r, v, authorized).0)
  {
    hide KeyFor, UniquePlaces, CallsOk, ResultsOk, FuturesOk, MemberKey, IsOffered;
    LifecycleStays(r, FieldSet(r, v, authorized).0);
  }

  datatype Action =
    | OfferService(offer: Offer, authorized: bool)
    | StopService(service: ServiceIdentifier, failed: bool)
    | Subscribe(service: ServiceIdentifier, name: Name, depth: nat, authorized: bool)
    | SubscribeField(service: ServiceIdentifier, name: Name, depth: nat, authorized: bool)
    | SubscribeTrigger(service: ServiceIdentifier, name: Name, depth: nat, authorized: bool)
    | Unsubscribe(id: U64)
    | Publish(sample: EventSample, authorized: bool)
    | SetField(value: FieldValue, authorized: bool)
    | FireTrigger(activation: TriggerActivation, authorized: bool)
    | PollEvent(id: U64)
    | PollField(id: U64)
    | PollTrigger(id: U64)
    | SubmitCall(call: MethodCall, authorized: bool)
    | SubmitFuture(call: MethodCall, authorized: bool)
    | TakeCall(service: ServiceIdentifier, name: Name)
    | CompleteCall(result: MethodResult, authorized: bool)
    | TakeResult(service: ServiceIdentifier, name: Name, id: U64)

  /** A submission that needs a new id when all are taken does not return, and so leads to no further state. */
  predicate Returns(r: Registry, a: Action) {
    a.SubmitCall? || a.SubmitFuture? ==> (a.call.correlationId == 0 ==> CanAllocate(r))
  }

  function Step(r: Registry, a: Action): Registry
    requires Returns(r, a)
  {
    match a
    case OfferService(o, authorized) => Offered(r, o, authorized).0
    case StopService(s, failed) => Stopped(r, s, failed).0
    case Subscribe(s, name, depth, authorized) => EventSubscribed(r, s, name, depth, authorized).0
    case SubscribeField(s, name, depth, authorized) => FieldSubscribed(r, s, name, depth, authorized).0
    case SubscribeTrigger(s, name, depth, authorized) => TriggerSubscribed(r, s, name, depth, authorized).0
    case Unsubscribe(id) => Unsubscribed(r, id).0
    case Publish(sample, authorized) => Published(r, sample, authorized).0
    case SetField(v, authorized) => FieldSet(r, v, authorized).0
    case FireTrigger(x, authorized) => TriggerFired(r, x, authorized).0
    case PollEvent(id) => r.(subscriptions := Polled(r.subscriptions, id).0)
    case PollField(id) => r.(fieldSubscriptions := Polled(r.fieldSubscriptions, id).0)
    case PollTrigger(id) => r.(triggerSubscriptions := Polled(r.triggerSubscriptions, id).0)
    case SubmitCall(c, authorized) => Submitted(r, c, authorized).0
    case SubmitFuture(c, authorized) => FutureSubmitted(r, c, authorized).0
    case TakeCall(s, name) => CallTaken(r, s, name).0
    case CompleteCall(x, authorized) => CallCompleted(r, x, authorized).0
    case TakeResult(s, name, id) => ResultTaken(r, s, name, id).0
  }

  lemma EmplacedIsOffered<T>(offers: map<Name, Offer>, m: map<U64, QueueState<T>>, sub: Subscription, queue: seq<T>)
    requires AllOffered(offers, m) && IsOffered(offers, sub.service)
    ensures AllOffered(offers, Emplaced(m, sub.id, QueueState(sub, queue)))
  {
    hide IsOffered;
  }

  lemma DeliveryStaysOffered<T>(
    offers: map<Name, Offer>, m: map<U64, QueueState<T>>, s: ServiceIdentifier, name: Name, sample: T)
    requires AllOffered(offers, m)
    ensures AllOffered(offers, DeliveredToAll(m, s, name, sample))
  {
    hide IsOffered;
  }

  lemma PollStaysOffered<T>(offers: map<Name, Offer>, m: map<U64, QueueState<T>>, id: U64)
    requires AllOffered(offers, m)
    ensures AllOffered(offers, Polled(m, id).0) && AllOffered(offers, m - {id})
  {
    hide IsOffered;
  }

  /** Only subscriptions and counters have changed, and the subscriptions still belong to offered services. */
  ghost predicate OnlySubscriptions(r: Registry, r': Registry) {
    && r' == r.(nextSubscriptionId := r'.nextSubscriptionId, nextSequence := r'.nextSequence,
                subscriptions := r'.subscriptions, fieldSubscriptions := r'.fieldSubscriptions,
                triggerSubscriptions := r'.triggerSubscriptions)
    && AllOffered(r.offers, r'.fieldSubscriptions) && AllOffered(r.offers, r'.triggerSubscriptions)
  }

  lemma SubscriptionsStay(r: Registry, r': Registry)
    requires Invariant(r) && OnlySubscriptions(r, r')
    ensures Invariant(r')
  {
    hide UniquePlaces, CallsOk, ResultsOk, FuturesOk, MemberKey, IsOffered, AllOffered;
    LifecycleStays(r, r');
  }

  lemma SubscriptionsAreOffered(r: Registry)
    requires Invariant(r)
    ensures AllOffered(r.offers, r.fieldSubscriptions) && AllOffered(r.offers, r.triggerSubscriptions)
  {
    hide UniquePlaces, CallsOk, ResultsOk, FuturesOk, AllOffered;
  }

  lemma NewIsOffered(r: Registry, s: ServiceIdentifier, name: Name, depth: nat, authorized: bool)
    ensures var sub := NewSubscription(r, s, name, depth, authorized);
      sub.Some? ==> IsOffered(r.offers, s) && sub.value.service == s
  {
    hide IsOffered;
  }

  lemma EventSubscribeKeeps(r: Registry, s: ServiceIdentifier, name: Name, depth: nat, authorized: bool)
    requires Invariant(r)
    ensures Invariant(EventSubscribed(r, s, name, depth, authorized).0)
  {
    hide Invariant, IsOffered, AllOffered, Emplaced;
    SubscriptionsAreOffered(r);
    SubscriptionsStay(r, EventSubscribed(r, s, name, depth, authorized).0);
  }

  lemma FieldSubscribeKeeps(r: Registry, s: ServiceIdentifier, name: Name, depth: nat, authorized: bool)
    requires Invariant(r)
    ensures Invariant(FieldSubscribed(r, s, name, depth, authorized).0)
  {
    hide Invariant, IsOffered, AllOffered, Emplaced, MemberKey, NewSubscription;
    SubscriptionsAreOffered(r);
    var sub, key := NewSubscription(r, s, name, depth, authorized), MemberKey(s, name);
    if sub.Some? {
      NewIsOffered(r, s, name, depth, authorized);
      EmplacedIsOffered(
        r.offers, r.fieldSubscriptions, sub.value, if key in r.fieldValues then [r.fieldValues[key]] else []);
    }
    SubscriptionsStay(r, FieldSubscribed(r, s, name, depth, authorized).0);
  }

  lemma TriggerSubscribeKeeps(r: Registry, s: ServiceIdentifier, name: Name, depth: nat, authorized: bool)
    requires Invariant(r)
    ensures Invariant(TriggerSubscribed(r, s, name, depth, authorized).0)
  {
    hide Invariant, IsOffered, AllOffered, Emplaced, NewSubscription;
    SubscriptionsAreOffered(r);
    var sub := NewSubscription(r, s, name, depth, authorized);
    if sub.Some? {
      NewIsOffered(r, s, name, depth, authorized);
      EmplacedIsOffered(r.offers, r.triggerSubscriptions, sub.value, []);
    }
    SubscriptionsStay(r, TriggerSubscribed(r, s, name, depth, authorized).0);
  }

  lemma UnsubscribeKeeps(r: Registry, id: U64)
    requires Invariant(r)
    ensures Invariant(Unsubscribed(r, id).0)
  {
    hide Invariant, AllOffered;
    SubscriptionsAreOffered(r);
    PollStaysOffered(r.offers, r.fieldSubscriptions, id);
    PollStaysOffered(r.offers, r.triggerSubscriptions, id);
    SubscriptionsStay(r, Unsubscribed(r, id).0);
  }

  lemma PublishKeeps(r: Registry, sample: EventSample, authorized: bool)
    requires Invariant(r)
    ensures Invariant(Published(r, sample, authorized).0)
  {
    hide Invariant, IsOffered, AllOffered, DeliveredToAll;
    SubscriptionsAreOffered(r);
    SubscriptionsStay(r, Published(r, sample, authorized).0);
  }

  lemma FireKeeps(r: Registry, x: TriggerActivation, authorized: bool)
    requires Invariant(r)
    ensures Invariant(TriggerFired(r, x, authorized).0)
  {
    hide Invariant, IsOffered, AllOffered, DeliveredToAll;
    SubscriptionsAreOffered(r);
    DeliveryStaysOffered(r.offers, r.triggerSubscriptions, x.service, x.triggerName, x.(sequence := r.nextSequence));
    SubscriptionsStay(r, TriggerFired(r, x, authorized).0);
  }

  lemma PollKeeps(r: Registry, id: U64)
    requires Invariant(r)
    ensures Invariant(r.(subscriptions := Polled(r.subscriptions, id).0))
    ensures Invariant(r.(fieldSubscriptions := Polled(r.fieldSubscriptions, id).0))
    ensures Invariant(r.(triggerSubscriptions := Polled(r.triggerSubscriptions, id).0))
  {
    hide Invariant, AllOffered, Polled;
    SubscriptionsAreOffered(r);
    PollStaysOffered(r.offers, r.fieldSubscriptions, id);
    PollStaysOffered(r.offers, r.triggerSubscriptions, id);
    SubscriptionsStay(r, r.(subscriptions := Polled(r.subscriptions, id).0));
    SubscriptionsStay(r, r.(fieldSubscriptions := Polled(r.fieldSubscriptions, id).0));
    SubscriptionsStay(r, r.(triggerSubscriptions := Polled(r.triggerSubscriptions, id).0));
  }

  lemma StepKeepsInvariant(r: Registry, a: Action)
    requires Invariant(r) && Returns(r, a)
    ensures Invariant(Step(r, a))
  {
    hide Invariant, Offered, Stopped, FieldSet, Submitted, FutureSubmitted, CallTaken, CallCompleted, ResultTaken;
    hide EventSubscribed, FieldSubscribed, TriggerSubscribed, Unsubscribed, Published, TriggerFired, Polled;
    match a
    case OfferService(o, authorized) => OfferKeepsInvariant(r, o, authorized);
    case StopService(s, failed) => StopKeepsInvariant(r, s, failed);
    case SetField(v, authorized) => FieldsKeepInvariant(r, v, authorized);
    case SubmitCall(c, authorized) => SubmitKeeps(r, c, authorized);
    case SubmitFuture(c, authorized) => SubmitFutureKeeps(r, c, authorized);
    case TakeCall(s, name) => TakeKeepsInvariant(r, s, name);
    case CompleteCall(x, authorized) => CompleteKeepsInvariant(r, x, authorized);
    case TakeResult(s, name, id) => TakeResultKeepsInvariant(r, s, name, id);
    case Subscribe(s, name, depth, authorized) => EventSubscribeKeeps(r, s, name, depth, authorized);
    case SubscribeField(s, name, depth, authorized) => FieldSubscribeKeeps(r, s, name, depth, authorized);
    case SubscribeTrigger(s, name, depth, authorized) => TriggerSubscribeKeeps(r, s, name, depth, authorized);
    case Unsubscribe(id) => UnsubscribeKeeps(r, id);
    case Publish(sample, authorized) => PublishKeeps(r, sample, authorized);
    case FireTrigger(x, authorized) => FireKeeps(r, x, authorized);
    case PollEvent(id) => PollKeeps(r, id);
    case PollField(id) => PollKeeps(r, id);
    case PollTrigger(id) => PollKeeps(r, id);
  }

  lemma SubmitKeeps(r: Registry, c: MethodCall, authorized: bool)
    requires Invariant(r) && (c.correlationId == 0 ==> CanAllocate(r))
    ensures Invariant(Submitted(r, c, authorized).0)
  {
    hide Submitted, CallsOk, ResultsOk, FuturesOk, FieldsOk, UniquePlaces;
    SubmitKeepsInvariant(r, c, authorized);
  }

  lemma SubmitFutureKeeps(r: Registry, c: MethodCall, authorized: bool)
    requires Invariant(r) && (c.correlationId == 0 ==> CanAllocate(r))
    ensures Invariant(FutureSubmitted(r, c, authorized).0)
  {
    hide FutureSubmitted, CallsOk, ResultsOk, FuturesOk, FieldsOk, UniquePlaces;
    SubmitFutureKeepsInvariant(r, c, authorized);
  }

  // ----- runs -----

  ghost predicate IsRun(states: seq<Registry>, actions: seq<Action>) {
    && |states| == |actions| + 1
    && forall i :: 0 <= i < |actions| ==> Returns(states[i], actions[i]) && states[i + 1] == Step(states[i], actions[i])
  }

  /**
   In every reachable state each correlation id is in at most one place; every unresolved future's call is
   queued or in flight; every future handed out is either unresolved or has its outcome, never both; and
   calls, results, field values and field and trigger subscriptions belong to offered services.
   */
  lemma {:induction false} InvariantHolds(states: seq<Registry>, actions: seq<Action>)
    requires IsRun(states, actions) && states[0] == Empty()
    ensures forall i :: 0 <= i < |states| ==> Invariant(states[i])
    decreases |actions|
  {
    hide Step, Invariant;
    if actions == [] {
      EmptyIsFine();
    } else {
      var n := |actions| - 1;
      InvariantHolds(states[..n + 1], actions[..n]);
      assert Invariant(states[..n + 1][n]);
      StepKeepsInvariant(states[n], actions[n]);
    }
  }

  lemma EmptyIsFine()
    ensures Invariant(Empty())
  {
  }

  lemma SubmitSettlesNothing(r: Registry, c: MethodCall, authorized: bool)
    requires r.nextCorrelationId != 0 && (c.correlationId == 0 ==> CanAllocate(r))
    ensures Submitted(r, c, authorized).0.settled == r.settled
  {
    hide Submitted;
    SubmittedQueues(r, c, authorized);
  }

  /** The outcome is the action's: its result, if it completes this call, or cancellation, if it stops the service. */
  predicate SettledBy(c: MethodCall, a: Action, outcome: Outcome) {
    match a
    case CompleteCall(x, _) =>
      && x.correlationId == c.correlationId && x.service == c.service && x.methodName == c.methodName
      && outcome == Completed(x)
    case StopService(s, _) => s == c.service && outcome == Cancelled
    case _ => false
  }

  /** Some future's own call was completed by the action, or its service stopped. */
  ghost predicate SettledNow(r: Registry, a: Action, t: nat, outcome: Outcome) {
    exists id :: id in r.futures && r.futures[id].future == t && SettledBy(r.futures[id].call, a, outcome)
  }

  lemma CompletionSettles(r: Registry, x: MethodResult, authorized: bool, t: nat)
    requires Invariant(r)
    ensures var r' := CallCompleted(r, x, authorized).0;
      && (t in r.settled ==> t in r'.settled && r'.settled[t] == r.settled[t])
      && (t in r'.settled && t !in r.settled ==> SettledNow(r, CompleteCall(x, authorized), t, r'.settled[t]))
  {
    hide KeyFor, UniquePlaces, ResultsOk, FieldsOk, MemberKey, IsOffered, Pushed;
    var id, r' := x.correlationId, CallCompleted(r, x, authorized).0;
    if t in r'.settled && t !in r.settled {
      assert id in r.futures && r.futures[id].future == t;
      ActiveIfFlying(r, id);
      assert SettledBy(r.futures[id].call, CompleteCall(x, authorized), r'.settled[t]);
    }
  }

  /** The future of an in-flight id is the one of the in-flight call. */
  lemma ActiveIfFlying(r: Registry, id: U64)
    requires Invariant(r) && id in r.futures && id in r.inFlight
    ensures r.futures[id].call == r.inFlight[id]
  {
    hide KeyFor, ResultsOk, FieldsOk, MemberKey, IsOffered, UniquePlaces;
    var c := r.futures[id].call;
    if InQueue(r.pendingCalls, c) {
      var key := MemberKey(c.service, c.methodName);
      var i :| 0 <= i < |r.pendingCalls[key]| && r.pendingCalls[key][i] == c;
      OnePlaceOnly(r, id, Flying, Waiting(key, i));
    }
  }

  lemma CancellingSettles(r: Registry, s: ServiceIdentifier, failed: bool, settled: map<nat, Outcome>, t: nat)
    requires FuturesOk(r) && settled == r.settled + AllCancelled(FuturesOf(r.futures, s))
    ensures t in r.settled ==> t in settled && settled[t] == r.settled[t]
    ensures t in settled && t !in r.settled ==> SettledNow(r, StopService(s, failed), t, settled[t])
  {
    hide Active, Unresolved;
    if t in settled && t !in r.settled {
      var id :| id in r.futures && r.futures[id].call.service == s && r.futures[id].future == t;
      assert SettledBy(r.futures[id].call, StopService(s, failed), settled[t]);
    }
  }

  lemma StopSettles(r: Registry, s: ServiceIdentifier, failed: bool, t: nat)
    requires Invariant(r)
    ensures var r' := Stopped(r, s, failed).0;
      && (t in r.settled ==> t in r'.settled && r'.settled[t] == r.settled[t])
      && (t in r'.settled && t !in r.settled ==> SettledNow(r, StopService(s, failed), t, r'.settled[t]))
  {
    hide KeyFor, UniquePlaces, CallsOk, ResultsOk, FuturesOk, FieldsOk, Stopped, ServiceGone, SettledNow;
    var r' := Stopped(r, s, failed).0;
    if KeyFor(s) in r.offers {
      StopIsServiceGone(r, s, failed);
      StopOnFutures(r, s, r');
      CancellingSettles(r, s, failed, r'.settled, t);
    } else {
      NotStopped(r, s, failed);
    }
  }

  predicate TouchesCalls(a: Action) {
    a.SubmitCall? || a.SubmitFuture? || a.TakeCall? || a.CompleteCall? || a.TakeResult? || a.StopService?
  }

  lemma QueuesSettleNothing(r: Registry, a: Action)
    requires Returns(r, a) && !TouchesCalls(a)
    ensures Step(r, a).settled == r.settled
  {
    hide Stopped, Submitted, FutureSubmitted, CallTaken, CallCompleted, ResultTaken, Polled, ValidOffer, IsOffered;
    hide KeyFor, MemberKey, Emplaced, DeliveredToAll, NewSubscription, WithoutId;
  }

  lemma CallsSettleNothing(r: Registry, a: Action)
    requires r.nextCorrelationId != 0 && Returns(r, a)
    requires a.SubmitCall? || a.SubmitFuture? || a.TakeCall? || a.TakeResult?
    ensures Step(r, a).settled == r.settled
  {
    hide Submitted, MemberKey, IsOffered, Popped, RemovedAt, FindResult, Emplaced;
    if a.SubmitCall? || a.SubmitFuture? {
      SubmitSettlesNothing(r, a.call, a.authorized);
    }
  }

  /** A future is settled by the completion of its own call or by the stop of its service, and stays settled so. */
  lemma SettledOnce(r: Registry, a: Action, t: nat)
    requires Invariant(r) && Returns(r, a)
    ensures t in r.settled ==> t in Step(r, a).settled && Step(r, a).settled[t] == r.settled[t]
    ensures t in Step(r, a).settled && t !in r.settled ==> SettledNow(r, a, t, Step(r, a).settled[t])
  {
    hide Invariant, SettledNow;
    match a
    case CompleteCall(x, authorized) => CompletionSettles(r, x, authorized, t);
    case StopService(s, failed) => StopSettles(r, s, failed, t);
    case _ =>
      if TouchesCalls(a) {
        CounterIsNonZero(r);
        CallsSettleNothing(r, a);
      } else {
        QueuesSettleNothing(r, a);
      }
  }

  /** Over every run: once a future has its outcome, it has the same outcome in every later state. */
  lemma {:induction false} OutcomeIsFinal(
    states: seq<Registry>, actions: seq<Action>, i: nat, j: nat, t: nat)
    requires IsRun(states, actions) && states[0] == Empty()
    requires i <= j < |states| && t in states[i].settled
    ensures t in states[j].settled && states[j].settled[t] == states[i].settled[t]
    decreases j
  {
    hide Step, Invariant, Returns, SettledNow;
    if i < j {
      OutcomeIsFinal(states, actions, i, j - 1, t);
      InvariantHolds(states, actions);
      assert states[j] == Step(states[j - 1], actions[j - 1]) && Returns(states[j - 1], actions[j - 1]);
      SettledOnce(states[j - 1], actions[j - 1], t);
    }
  }

  lemma CounterIsNonZero(r: Registry)
    requires Invariant(r)
    ensures r.nextCorrelationId != 0
  {
  }
}
