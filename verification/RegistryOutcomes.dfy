/** What offering, subscribing, sending and reading return, and to whom they make a difference. */
module RegistryOutcomes {
  import opened Bytes
  import opened ServiceTypes
  import opened ServiceKeys
  import opened ServiceRegistry
  import opened RegistryCalls
  import opened RegistryRuns
  import opened RegistryQueues
  import Q = SubscriptionQueue

  // ----- offers -----

  /** An offer is taken up exactly if it is complete and allowed; it makes its own service available, and no other. */
  lemma OfferMakesAvailable(r: Registry, o: Offer, authorized: bool, t: ServiceIdentifier)
    ensures var (r', ok) := Offered(r, o, authorized);
      && (ok <==>
            && authorized && o.ttlMs != 0
            && o.service.interfaceId != 0 && o.service.instanceId != 0 && o.service.majorVersion != 0
            && o.processIdentity != [] && o.machineIdentity != [] && o.address != [])
      && (ok ==> (IsOffered(r'.offers, t) <==> t == o.service || IsOffered(r.offers, t)))
      && (ok ==> KeyFor(o.service) in r'.offers && r'.offers[KeyFor(o.service)] == o.(offered := true))
      && (!ok ==> r' == r)
  {
    hide KeyFor;
    KeyIsInjective(o.service, t);
  }

  /** A stop succeeds for every service that was ever offered; an invalidation also marks the offer as failed. */
  lemma StopMarksOffer(r: Registry, s: ServiceIdentifier, failed: bool)
    ensures var (r', ok) := Stopped(r, s, failed);
      && (ok <==> KeyFor(s) in r.offers)
      && (ok ==>
            && KeyFor(s) in r'.offers && !r'.offers[KeyFor(s)].offered
            && (r'.offers[KeyFor(s)].healthy <==> r.offers[KeyFor(s)].healthy && !failed)
            && r'.offers[KeyFor(s)].address == r.offers[KeyFor(s)].address
            && forall k <- r.offers :: k != KeyFor(s) ==> k in r'.offers && r'.offers[k] == r.offers[k])
      && (!ok ==> r' == r)
  {
    hide KeyFor, WithoutPrefix, CallsExcept, FuturesExcept, FuturesOf, AllCancelled, QueuesExcept;
  }

  // ----- subscriptions -----

  predicate Subscribable(r: Registry, s: ServiceIdentifier, name: Name, depth: nat, authorized: bool) {
    IsOffered(r.offers, s) && name != [] && 1 <= depth <= 64 && authorized
  }

  /** Below wrap: no subscription of any kind has the id that is given out next. */
  ghost predicate IdsBelow(r: Registry) {
    && (forall id <- r.subscriptions :: id < r.nextSubscriptionId)
    && (forall id <- r.fieldSubscriptions :: id < r.nextSubscriptionId)
    && forall id <- r.triggerSubscriptions :: id < r.nextSubscriptionId
  }

  /** The subscription has an id of its own, and what was asked for. */
  ghost predicate IsNew(r: Registry, s: ServiceIdentifier, name: Name, depth: nat, sub: Q.Subscription) {
    && sub == Q.Subscription(sub.id, s, name, depth)
    && sub.id !in r.subscriptions && sub.id !in r.fieldSubscriptions && sub.id !in r.triggerSubscriptions
  }

  lemma NewIsSubscribable(r: Registry, s: ServiceIdentifier, name: Name, depth: nat, authorized: bool)
    requires IdsBelow(r)
    ensures var sub := NewSubscription(r, s, name, depth, authorized);
      && (sub.Some? <==> Subscribable(r, s, name, depth, authorized))
      && (sub.Some? ==> IsNew(r, s, name, depth, sub.value) && sub.value.id == r.nextSubscriptionId)
  {
    hide IsOffered;
  }

  /** A subscription is made exactly if the service is offered, and gets a new id and an empty queue of its own. */
  lemma EventSubscriptionIsNew(r: Registry, s: ServiceIdentifier, name: Name, depth: nat, authorized: bool)
    requires IdsBelow(r)
    ensures var (r', sub) := EventSubscribed(r, s, name, depth, authorized);
      && (sub.Some? <==> Subscribable(r, s, name, depth, authorized))
      && (sub.Some? ==>
            && IsNew(r, s, name, depth, sub.value)
            && r'.subscriptions == r.subscriptions[sub.value.id := Q.QueueState(sub.value, [])])
      && (sub.None? ==> r' == r)
  {
    hide IsOffered, NewSubscription, IdsBelow, Subscribable;
    NewIsSubscribable(r, s, name, depth, authorized);
    EventSubscribing(r, s, name, depth, authorized);
  }

  /** The queue of a field subscription starts with the value of the field, if it has one. */
  lemma FieldSubscriptionIsNew(r: Registry, s: ServiceIdentifier, name: Name, depth: nat, authorized: bool)
    requires IdsBelow(r)
    ensures var (r', sub) := FieldSubscribed(r, s, name, depth, authorized);
      && (sub.Some? <==> Subscribable(r, s, name, depth, authorized))
      && (sub.Some? ==>
            && IsNew(r, s, name, depth, sub.value)
            && r'.fieldSubscriptions == r.fieldSubscriptions[sub.value.id := Q.QueueState(sub.value,
                 if FieldOf(r, s, name, true).Some? then [FieldOf(r, s, name, true).value] else [])])
      && (sub.None? ==> r' == r)
  {
    hide IsOffered, NewSubscription, IdsBelow, MemberKey;
    NewIsSubscribable(r, s, name, depth, authorized);
    FieldSubscribing(r, s, name, depth, authorized);
  }

  lemma TriggerSubscriptionIsNew(r: Registry, s: ServiceIdentifier, name: Name, depth: nat, authorized: bool)
    requires IdsBelow(r)
    ensures var (r', sub) := TriggerSubscribed(r, s, name, depth, authorized);
      && (sub.Some? <==> Subscribable(r, s, name, depth, authorized))
      && (sub.Some? ==>
            && IsNew(r, s, name, depth, sub.value)
            && r'.triggerSubscriptions == r.triggerSubscriptions[sub.value.id := Q.QueueState(sub.value, [])])
      && (sub.None? ==> r' == r)
  {
    hide IsOffered, NewSubscription, IdsBelow, Subscribable;
    NewIsSubscribable(r, s, name, depth, authorized);
    TriggerSubscribing(r, s, name, depth, authorized);
  }

  /** Cancelling succeeds for the id of any subscription, takes away that one, and leaves all others. */
  lemma UnsubscribeTakesOne(r: Registry, id: U64, other: U64)
    ensures var (r', ok) := Unsubscribed(r, id);
      && (ok <==> id in r.subscriptions || id in r.fieldSubscriptions || id in r.triggerSubscriptions)
      && id !in r'.subscriptions && id !in r'.fieldSubscriptions && id !in r'.triggerSubscriptions
      && (other != id ==>
            && (other in r'.subscriptions <==> other in r.subscriptions)
            && (other in r'.fieldSubscriptions <==> other in r.fieldSubscriptions)
            && (other in r'.triggerSubscriptions <==> other in r.triggerSubscriptions)
            && (other in r.subscriptions ==> r'.subscriptions[other] == r.subscriptions[other])
            && (other in r.fieldSubscriptions ==> r'.fieldSubscriptions[other] == r.fieldSubscriptions[other])
            && (other in r.triggerSubscriptions ==> r'.triggerSubscriptions[other] == r.triggerSubscriptions[other]))
  {
  }

  // ----- sending -----

  /** The sample is the last of the queue now; before it comes a suffix of the old queue, shortened only if full. */
  ghost predicate Received<T>(before: Q.QueueState<T>, sample: T, after: Q.QueueState<T>) {
    var depth := before.subscription.queueDepth;
    && after.subscription == before.subscription
    && |after.queue| == (if |before.queue| < depth then |before.queue| + 1 else depth)
    && after.queue != [] && after.queue[|after.queue| - 1] == sample
    && |before.queue| >= |after.queue| - 1
    && after.queue[..|after.queue| - 1] == before.queue[|before.queue| - (|after.queue| - 1)..]
  }

  lemma DeliveryIsReceived<T>(q: Q.QueueState<T>, sample: T)
    requires 0 < q.subscription.queueDepth
    ensures Received(q, sample, Q.Delivered(q, sample))
  {
  }

  /** Who subscribed to this member of this service receives the sample, and nobody else notices. */
  ghost predicate Reaches<T>(
    before: map<U64, Q.QueueState<T>>, s: ServiceIdentifier, name: Name, sample: T, after: map<U64, Q.QueueState<T>>)
  {
    && after.Keys == before.Keys
    && forall id <- before :: 0 < before[id].subscription.queueDepth ==>
         if before[id].subscription.service == s && before[id].subscription.eventName == name
         then Received(before[id], sample, after[id]) else after[id] == before[id]
  }

  lemma DeliveryReaches<T>(m: map<U64, Q.QueueState<T>>, s: ServiceIdentifier, name: Name, sample: T)
    ensures Reaches(m, s, name, sample, DeliveredToAll(m, s, name, sample))
  {
    hide Received, Q.Delivered;
    forall id <- m | 0 < m[id].subscription.queueDepth
      ensures Received(m[id], sample, Q.Delivered(m[id], sample))
    {
      DeliveryIsReceived(m[id], sample);
    }
  }

  /** A sample is sent exactly if it is complete and its service offered; it gets the next number, which is returned. */
  lemma PublicationReaches(r: Registry, x: EventSample, authorized: bool)
    ensures var (r', number) := Published(r, x, authorized);
      && (number.Some? <==> IsOffered(r.offers, x.service) && x.eventName != [] && x.payload != [] && authorized)
      && (number.Some? ==>
            && number.value == r.nextSequence && r'.nextSequence == Increment(r.nextSequence)
            && Reaches(r.subscriptions, x.service, x.eventName, x.(sequence := number.value), r'.subscriptions))
      && (number.None? ==> r' == r)
  {
    hide IsOffered, DeliveredToAll, Increment, Reaches;
    DeliveryReaches(r.subscriptions, x.service, x.eventName, x.(sequence := r.nextSequence));
  }

  /** The same for a trigger, which carries no payload. */
  lemma FiringReaches(r: Registry, x: TriggerActivation, authorized: bool)
    ensures var (r', fired) := TriggerFired(r, x, authorized);
      && (fired.Some? <==> IsOffered(r.offers, x.service) && x.triggerName != [] && authorized)
      && (fired.Some? ==>
            && fired.value == x.(sequence := r.nextSequence) && r'.nextSequence == Increment(r.nextSequence)
            && Reaches(
                 r.triggerSubscriptions, x.service, x.triggerName, fired.value, r'.triggerSubscriptions))
      && (fired.None? ==> r' == r)
  {
    hide IsOffered, DeliveredToAll, Increment, Reaches;
    DeliveryReaches(r.triggerSubscriptions, x.service, x.triggerName, x.(sequence := r.nextSequence));
  }

  /** The same for a field, whose value can be read back from then on while no other field changes. */
  lemma SettingReaches(r: Registry, v: FieldValue, authorized: bool, s: ServiceIdentifier, name: Name)
    ensures var (r', stored) := FieldSet(r, v, authorized);
      && (stored.Some? <==> IsOffered(r.offers, v.service) && v.fieldName != [] && v.payload != [] && authorized)
      && (stored.Some? ==>
            && stored.value == v.(sequence := r.nextSequence) && r'.nextSequence == Increment(r.nextSequence)
            && Reaches(r.fieldSubscriptions, v.service, v.fieldName, stored.value, r'.fieldSubscriptions)
            && FieldOf(r', s, name, true)
                 == if s == v.service && name == v.fieldName then stored else FieldOf(r, s, name, true))
      && (stored.None? ==> r' == r)
  {
    hide IsOffered, DeliveredToAll, Increment, Reaches, MemberKey;
    DeliveryReaches(r.fieldSubscriptions, v.service, v.fieldName, v.(sequence := r.nextSequence));
    MemberKeyIsInjective(v.service, v.fieldName, s, name);
  }

  /** A field is read exactly if it is named, its service offered, reading allowed, and a value stored. */
  lemma ReadIsExact(r: Registry, s: ServiceIdentifier, name: Name, authorized: bool)
    ensures var v := FieldOf(r, s, name, authorized);
      && (v.Some? <==> name != [] && IsOffered(r.offers, s) && authorized && MemberKey(s, name) in r.fieldValues)
      && (v.Some? ==> v.value == r.fieldValues[MemberKey(s, name)])
  {
    hide IsOffered, MemberKey;
  }

  // ----- reading a field over runs -----

  /** Whether the step sets this very field, or stops its service. */
  predicate Overwrites(r: Registry, a: Action, s: ServiceIdentifier, name: Name) {
    || (a.SetField? && a.value.service == s && a.value.fieldName == name && FieldSet(r, a.value, a.authorized).1.Some?)
    || (a.StopService? && a.service == s)
  }

  lemma StopKeepsOtherFields(r: Registry, t: ServiceIdentifier, failed: bool, s: ServiceIdentifier, name: Name)
    requires s != t
    ensures FieldOf(Stopped(r, t, failed).0, s, name, true) == FieldOf(r, s, name, true)
  {
    hide KeyFor, MemberKey, CallsExcept, FuturesExcept, FuturesOf, AllCancelled, QueuesExcept, WithoutPrefix;
    PrefixFilter(r.fieldValues, t, s, name);
    KeyIsInjective(s, t);
  }

  lemma OfferKeepsFields(r: Registry, o: Offer, authorized: bool, s: ServiceIdentifier, name: Name)
    requires IsOffered(r.offers, s)
    ensures FieldOf(Offered(r, o, authorized).0, s, name, true) == FieldOf(r, s, name, true)
  {
    hide KeyFor, MemberKey;
    OfferMakesAvailable(r, o, authorized, s);
  }

  /** All other operations leave the offers alone. */
  lemma OffersStay(r: Registry, a: Action)
    requires Returns(r, a) && !a.OfferService? && !a.StopService?
    ensures Step(r, a).offers == r.offers
  {
    hide Offered, Stopped, NewSubscription, Emplaced, Seed, Increment, WithoutId, DeliveredToAll, IsOffered, Polled;
    hide KeyFor, MemberKey, Identified, Pushed, Popped, RemovedAt, FindResult, CanAllocate;
  }

  lemma SettingKeepsOtherFields(r: Registry, v: FieldValue, authorized: bool, s: ServiceIdentifier, name: Name)
    requires FieldSet(r, v, authorized).1.None? || v.service != s || v.fieldName != name
    ensures FieldOf(FieldSet(r, v, authorized).0, s, name, true) == FieldOf(r, s, name, true)
  {
    hide FieldSet, FieldOf, IsOffered, Reaches, Increment;
    SettingReaches(r, v, authorized, s, name);
  }

  lemma SameFieldRead(r: Registry, r': Registry, s: ServiceIdentifier, name: Name)
    requires r'.offers == r.offers && r'.fieldValues == r.fieldValues
    ensures FieldOf(r', s, name, true) == FieldOf(r, s, name, true)
  {
  }

  lemma StillOffered(r: Registry, a: Action, s: ServiceIdentifier)
    requires Returns(r, a) && IsOffered(r.offers, s) && (a.StopService? ==> a.service != s)
    ensures IsOffered(Step(r, a).offers, s)
  {
    hide Step, Returns, Offered, Stopped, IsOffered, KeyFor;
    if a.OfferService? {
      OfferMakesAvailable(r, a.offer, a.authorized, s);
      OfferStepIs(r, a);
    } else if a.StopService? {
      StepIs(r, a);
      StopKeepsOffered(r, a.service, a.failed, s);
    } else {
      OffersStay(r, a);
    }
  }

  lemma OfferStepIs(r: Registry, a: Action)
    requires Returns(r, a) && a.OfferService?
    ensures Step(r, a) == Offered(r, a.offer, a.authorized).0
  {
    hide Offered;
  }

  lemma StopKeepsOffered(r: Registry, t: ServiceIdentifier, failed: bool, s: ServiceIdentifier)
    requires s != t
    ensures IsOffered(Stopped(r, t, failed).0.offers, s) <==> IsOffered(r.offers, s)
  {
    hide KeyFor, Erased;
    KeyIsInjective(s, t);
    assert forall q: Registry :: Erased(q, t).offers == q.offers by {
      ErasingKeepsOffers(t);
    }
  }

  lemma ErasingKeepsOffers(t: ServiceIdentifier)
    ensures forall q: Registry :: Erased(q, t).offers == q.offers
  {
    hide KeyFor, WithoutPrefix, CallsExcept, FuturesExcept, FuturesOf, AllCancelled, QueuesExcept;
  }

  lemma FieldStays(r: Registry, a: Action, s: ServiceIdentifier, name: Name)
    requires Returns(r, a) && IsOffered(r.offers, s) && !Overwrites(r, a, s, name)
    ensures FieldOf(Step(r, a), s, name, true) == FieldOf(r, s, name, true) && IsOffered(Step(r, a).offers, s)
  {
    hide Step, Returns, Offered, Stopped, FieldSet, FieldOf, MemberKey, IsOffered, Increment, SameFields;
    StillOffered(r, a, s);
    if a.SetField? {
      StepIs(r, a);
      SettingKeepsOtherFields(r, a.value, a.authorized, s, name);
    } else if a.StopService? {
      StepIs(r, a);
      StopKeepsOtherFields(r, a.service, a.failed, s, name);
    } else if a.OfferService? {
      OfferStepIs(r, a);
      OfferKeepsFields(r, a.offer, a.authorized, s, name);
    } else {
      OffersStay(r, a);
      StepStaysApart(r, a);
      SameFieldRead(r, Step(r, a), s, name);
    }
  }

  /** Over every run: a value that has been set is what is read until the field is set again or its service stops. */
  lemma {:induction false} LastValueIsRead(
    states: seq<Registry>, actions: seq<Action>, s: ServiceIdentifier, name: Name, i: nat, j: nat)
    requires IsRun(states, actions) && i < j < |states|
    requires actions[i].SetField? && Overwrites(states[i], actions[i], s, name)
    requires forall k :: i < k < j ==> !Overwrites(states[k], actions[k], s, name)
    ensures IsOffered(states[j].offers, s)
    ensures FieldOf(states[j], s, name, true) == Some(actions[i].value.(sequence := states[i].nextSequence))
    decreases j
  {
    hide Step, Returns, FieldOf, FieldSet, IsOffered, Increment, Reaches;
    assert Returns(states[j - 1], actions[j - 1]) && states[j] == Step(states[j - 1], actions[j - 1]);
    if j == i + 1 {
      var v := actions[i].value;
      SettingReaches(states[i], v, actions[i].authorized, s, name);
      StepIs(states[i], actions[i]);
      OffersStay(states[i], actions[i]);
    } else {
      LastValueIsRead(states, actions, s, name, i, j - 1);
      FieldStays(states[j - 1], actions[j - 1], s, name);
    }
  }

  // ----- ids over runs -----

  /** Only the subscribing operations give out ids. */
  predicate Subscribes(a: Action) {
    a.Subscribe? || a.SubscribeField? || a.SubscribeTrigger?
  }

  /** No further ids, in any of the three kinds of queue. */
  predicate NoMoreIds(r: Registry, r': Registry) {
    && r'.nextSubscriptionId == r.nextSubscriptionId && r'.subscriptions.Keys <= r.subscriptions.Keys
    && r'.fieldSubscriptions.Keys <= r.fieldSubscriptions.Keys
    && r'.triggerSubscriptions.Keys <= r.triggerSubscriptions.Keys
  }

  lemma SubmittingGivesNoIds(r: Registry, c: MethodCall, authorized: bool)
    requires c.correlationId == 0 ==> CanAllocate(r)
    ensures NoMoreIds(r, Submitted(r, c, authorized).0) && NoMoreIds(r, FutureSubmitted(r, c, authorized).0)
  {
    hide KeyFor, MemberKey, IsOffered, Identified, Pushed, Emplaced, CanAllocate;
  }

  lemma TakingKeepsCounter(r: Registry, s: ServiceIdentifier, name: Name, id: U64)
    ensures CallTaken(r, s, name).0.nextSubscriptionId == r.nextSubscriptionId
    ensures ResultTaken(r, s, name, id).0.nextSubscriptionId == r.nextSubscriptionId
  {
    hide KeyFor, MemberKey, IsOffered, Popped, RemovedAt, FindResult;
  }

  lemma TakingGivesNoIds(r: Registry, s: ServiceIdentifier, name: Name, id: U64)
    ensures NoMoreIds(r, CallTaken(r, s, name).0) && NoMoreIds(r, ResultTaken(r, s, name, id).0)
  {
    hide CallTaken, ResultTaken;
    TakingLeavesQueues(r, s, name, id);
    TakingKeepsCounter(r, s, name, id);
  }

  lemma StoppingGivesNoIds(r: Registry, s: ServiceIdentifier, failed: bool)
    ensures NoMoreIds(r, Stopped(r, s, failed).0)
  {
    hide KeyFor, WithoutPrefix, CallsExcept, FuturesExcept, FuturesOf, AllCancelled;
  }

  lemma UnsubscribingGivesNoIds(r: Registry, id: U64)
    ensures NoMoreIds(r, Unsubscribed(r, id).0)
  {
  }

  lemma PollingGivesNoIds<T>(m: map<U64, Q.QueueState<T>>, id: U64)
    ensures Polled(m, id).0.Keys <= m.Keys
  {
  }

  lemma CompletingGivesNoIds(r: Registry, x: MethodResult, authorized: bool)
    ensures NoMoreIds(r, CallCompleted(r, x, authorized).0)
  {
    hide KeyFor, MemberKey, IsOffered, Pushed;
  }

  lemma PublishingGivesNoIds(r: Registry, x: EventSample, authorized: bool)
    ensures NoMoreIds(r, Published(r, x, authorized).0)
  {
    hide IsOffered, Q.Delivered, Q.Matches, Increment;
  }

  lemma SettingGivesNoIds(r: Registry, v: FieldValue, authorized: bool)
    ensures NoMoreIds(r, FieldSet(r, v, authorized).0)
  {
    hide IsOffered, MemberKey, Q.Delivered, Q.Matches, Increment;
  }

  lemma FiringGivesNoIds(r: Registry, x: TriggerActivation, authorized: bool)
    ensures NoMoreIds(r, TriggerFired(r, x, authorized).0)
  {
    hide IsOffered, Q.Delivered, Q.Matches, Increment;
  }

  lemma OthersGiveNoIds(r: Registry, a: Action)
    requires Returns(r, a) && !Subscribes(a)
    ensures NoMoreIds(r, Step(r, a))
  {
    hide Published, FieldSet, TriggerFired, Submitted, FutureSubmitted, CallTaken, CallCompleted, ResultTaken;
    hide EventSubscribed, FieldSubscribed, TriggerSubscribed, CanAllocate, Stopped, Unsubscribed, Polled, ValidOffer;
    hide KeyFor;
    match a
    case SubmitCall(c, authorized) => SubmittingGivesNoIds(r, c, authorized);
    case SubmitFuture(c, authorized) => SubmittingGivesNoIds(r, c, authorized);
    case TakeCall(s, name) => TakingGivesNoIds(r, s, name, 0);
    case CompleteCall(x, authorized) => CompletingGivesNoIds(r, x, authorized);
    case TakeResult(s, name, id) => TakingGivesNoIds(r, s, name, id);
    case Publish(x, authorized) => PublishingGivesNoIds(r, x, authorized);
    case SetField(v, authorized) => SettingGivesNoIds(r, v, authorized);
    case FireTrigger(x, authorized) => FiringGivesNoIds(r, x, authorized);
    case StopService(s, failed) => StoppingGivesNoIds(r, s, failed);
    case Unsubscribe(id) => UnsubscribingGivesNoIds(r, id);
    case PollEvent(id) => PollingGivesNoIds(r.subscriptions, id);
    case PollField(id) => PollingGivesNoIds(r.fieldSubscriptions, id);
    case PollTrigger(id) => PollingGivesNoIds(r.triggerSubscriptions, id);
    case _ =>
  }

  lemma SubscribingGivesNext(r: Registry, a: Action)
    requires Returns(r, a) && Subscribes(a)
    ensures var r', id := Step(r, a), r.nextSubscriptionId;
      && (r' == r || r'.nextSubscriptionId == Increment(id)) && r'.subscriptions.Keys <= r.subscriptions.Keys + {id}
      && r'.fieldSubscriptions.Keys <= r.fieldSubscriptions.Keys + {id}
      && r'.triggerSubscriptions.Keys <= r.triggerSubscriptions.Keys + {id}
  {
    hide Increment, IsOffered, Seed, CanAllocate;
  }

  lemma StepKeepsIdsBelow(r: Registry, a: Action)
    requires Returns(r, a) && IdsBelow(r) && Step(r, a).nextSubscriptionId != 0
    ensures IdsBelow(Step(r, a))
  {
    hide Step, Returns;
    if Subscribes(a) {
      SubscribingGivesNext(r, a);
    } else {
      OthersGiveNoIds(r, a);
    }
  }

  /** Over every run in which the id counter does not wrap; so each subscription made in it has an id of its own. */
  lemma {:induction false} IdsStayBelow(states: seq<Registry>, actions: seq<Action>)
    requires IsRun(states, actions) && states[0] == Empty()
    requires forall i :: 0 <= i < |states| ==> states[i].nextSubscriptionId != 0
    ensures forall i :: 0 <= i < |states| ==> IdsBelow(states[i])
    decreases |actions|
  {
    hide Step, Returns, IdsBelow;
    if actions == [] {
      NoIdsYet();
    } else {
      var n := |actions| - 1;
      IdsStayBelow(states[..n + 1], actions[..n]);
      assert IdsBelow(states[..n + 1][n]) && states[n + 1] == Step(states[n], actions[n]);
      assert Returns(states[n], actions[n]);
      StepKeepsIdsBelow(states[n], actions[n]);
    }
  }

  lemma NoIdsYet()
    ensures IdsBelow(Empty())
  {
  }

  // ----- what polling hands out, over runs -----

  /** What each poll of queue `id` along the run handed to its caller, in order. */
  function EventsPolled(states: seq<Registry>, actions: seq<Action>, id: U64): seq<EventSample>
    requires |states| == |actions| + 1
  {
    if actions == [] then []
    else
      var n := |actions| - 1;
      EventsPolled(states[..n + 1], actions[..n], id)
      + if actions[n] == PollEvent(id) then Listed(Polled(states[n].subscriptions, id).1) else []
  }

  function FieldsPolled(states: seq<Registry>, actions: seq<Action>, id: U64): seq<FieldValue>
    requires |states| == |actions| + 1
  {
    if actions == [] then []
    else
      var n := |actions| - 1;
      FieldsPolled(states[..n + 1], actions[..n], id)
      + if actions[n] == PollField(id) then Listed(Polled(states[n].fieldSubscriptions, id).1) else []
  }

  function TriggersPolled(states: seq<Registry>, actions: seq<Action>, id: U64): seq<TriggerActivation>
    requires |states| == |actions| + 1
  {
    if actions == [] then []
    else
      var n := |actions| - 1;
      TriggersPolled(states[..n + 1], actions[..n], id)
      + if actions[n] == PollTrigger(id) then Listed(Polled(states[n].triggerSubscriptions, id).1) else []
  }

  function Listed<T>(x: Option<T>): seq<T> {
    if x.None? then [] else [x.value]
  }

  /** The entries of `matched` at the positions. */
  function Picked<T>(matched: seq<T>, positions: seq<nat>): seq<T>
    requires forall i :: 0 <= i < |positions| ==> positions[i] < |matched|
  {
    seq(|positions|, i requires 0 <= i < |positions| => matched[positions[i]])
  }

  /** A poll hands out the next matched entry that has not left the queue, and says so if there is none. */
  lemma PollIsNext<T>(h: Q.History<T>, m: map<U64, Q.QueueState<T>>, id: U64)
    requires Q.QueueIsSuffix(h) && id in m && m[id] == h.state
    ensures Polled(m, id).1 == if h.gone < |h.matched| then Some(h.matched[h.gone]) else None
    ensures Q.Step(h, Q.Poll).polled == h.polled + if h.gone < |h.matched| then [h.gone] else []
  {
  }

  lemma PickedFurther<T>(matched: seq<T>, more: seq<T>, positions: seq<nat>)
    requires forall i :: 0 <= i < |positions| ==> positions[i] < |matched|
    ensures Picked(matched + more, positions) == Picked(matched, positions)
  {
  }

  /** One more deed: what was handed out before plus what the poll hands out is what the positions pick. */
  lemma DeedPicks<T>(h: Q.History<T>, deed: Option<Q.Action<T>>, m: map<U64, Q.QueueState<T>>, id: U64, out: seq<T>)
    requires Q.QueueIsSuffix(h) && 0 < h.state.subscription.queueDepth && id in m && m[id] == h.state
    requires out == if deed == Some(Q.Poll) then Listed(Polled(m, id).1) else []
    ensures var h' := if deed.None? then h else Q.Step(h, deed.value);
      Q.QueueIsSuffix(h') && Picked(h'.matched, h'.polled) == Picked(h.matched, h.polled) + out
  {
    if deed.Some? {
      Q.StepKeepsSuffix(h, deed.value);
      if deed.value.Poll? {
        PollIsNext(h, m, id);
      } else {
        PickedFurther(h.matched, [deed.value.sample], h.polled);
      }
    }
  }

  lemma NothingPicked<T>(matched: seq<T>)
    ensures Picked(matched, []) == []
  {
  }

  lemma EventDeedPolls(r: Registry, a: Action, id: U64)
    ensures EventDeed(r, a, id) == Some(Q.Poll) <==> a == PollEvent(id)
  {
    hide Q.Matches;
  }

  lemma FieldDeedPolls(r: Registry, a: Action, id: U64)
    ensures FieldDeed(r, a, id) == Some(Q.Poll) <==> a == PollField(id)
  {
    hide Q.Matches;
  }

  lemma TriggerDeedPolls(r: Registry, a: Action, id: U64)
    ensures TriggerDeed(r, a, id) == Some(Q.Poll) <==> a == PollTrigger(id)
  {
    hide Q.Matches;
  }

  /**
   Over every run the polls of an event subscription hand out matched samples in the order they were sent,
   each at most once: at every poll the first one that has not left the queue. (Those that left it otherwise
   were pushed out by as many newer ones as the queue is deep.)
   */
  lemma {:induction false} PolledEventsAreNext(
    sub: Q.Subscription, states: seq<Registry>, actions: seq<Action>, id: U64)
    requires IsRun(states, actions) && 0 < sub.queueDepth
    requires forall i :: 0 <= i < |states| ==> id in states[i].subscriptions
    requires states[0].subscriptions[id] == Q.QueueState(sub, [])
    ensures var h := Q.Along(Seeded(sub, []), EventDeeds(states, actions, id));
      Q.QueueIsSuffix(h) && EventsPolled(states, actions, id) == Picked(h.matched, h.polled)
    decreases |actions|
  {
    hide Step, Returns, EventDeed, Polled, Picked, Q.QueueIsSuffix, Q.Step, Increment;
    if actions == [] {
      SeedIsSuffix<EventSample>(sub, []);
      NothingPicked<EventSample>([]);
    } else {
      var n := |actions| - 1;
      var deeds := EventDeeds(states, actions, id);
      assert deeds[..n] == EventDeeds(states[..n + 1], actions[..n], id);
      PolledEventsAreNext(sub, states[..n + 1], actions[..n], id);
      SubscriptionSeesSuffix(sub, states[..n + 1], actions[..n], id);
      EventDeedPolls(states[n], actions[n], id);
      DeedPicks(
        Q.Along(Seeded(sub, []), deeds[..n]), deeds[n], states[n].subscriptions, id,
        if actions[n] == PollEvent(id) then Listed(Polled(states[n].subscriptions, id).1) else []);
    }
  }

  /** The same for a field subscription, whose first entry is the value stored when it was made. */
  lemma {:induction false} PolledFieldsAreNext(
    sub: Q.Subscription, seed: seq<FieldValue>, states: seq<Registry>, actions: seq<Action>, id: U64)
    requires IsRun(states, actions) && 0 < sub.queueDepth && |seed| <= 1
    requires forall i :: 0 <= i < |states| ==> id in states[i].fieldSubscriptions
    requires states[0].fieldSubscriptions[id] == Q.QueueState(sub, seed)
    ensures var h := Q.Along(Seeded(sub, seed), FieldDeeds(states, actions, id));
      Q.QueueIsSuffix(h) && FieldsPolled(states, actions, id) == Picked(h.matched, h.polled)
    decreases |actions|
  {
    hide Step, Returns, FieldDeed, Polled, Picked, Q.QueueIsSuffix, Q.Step, Increment;
    if actions == [] {
      SeedIsSuffix(sub, seed);
      NothingPicked(seed);
    } else {
      var n := |actions| - 1;
      var deeds := FieldDeeds(states, actions, id);
      assert deeds[..n] == FieldDeeds(states[..n + 1], actions[..n], id);
      PolledFieldsAreNext(sub, seed, states[..n + 1], actions[..n], id);
      FieldSubscriptionSeesSuffix(sub, seed, states[..n + 1], actions[..n], id);
      FieldDeedPolls(states[n], actions[n], id);
      DeedPicks(
        Q.Along(Seeded(sub, seed), deeds[..n]), deeds[n], states[n].fieldSubscriptions, id,
        if actions[n] == PollField(id) then Listed(Polled(states[n].fieldSubscriptions, id).1) else []);
    }
  }

  /** The same for a trigger subscription. */
  lemma {:induction false} PolledTriggersAreNext(
    sub: Q.Subscription, states: seq<Registry>, actions: seq<Action>, id: U64)
    requires IsRun(states, actions) && 0 < sub.queueDepth
    requires forall i :: 0 <= i < |states| ==> id in states[i].triggerSubscriptions
    requires states[0].triggerSubscriptions[id] == Q.QueueState(sub, [])
    ensures var h := Q.Along(Seeded(sub, []), TriggerDeeds(states, actions, id));
      Q.QueueIsSuffix(h) && TriggersPolled(states, actions, id) == Picked(h.matched, h.polled)
    decreases |actions|
  {
    hide Step, Returns, TriggerDeed, Polled, Picked, Q.QueueIsSuffix, Q.Step, Increment;
    if actions == [] {
      SeedIsSuffix<TriggerActivation>(sub, []);
      NothingPicked<TriggerActivation>([]);
    } else {
      var n := |actions| - 1;
      var deeds := TriggerDeeds(states, actions, id);
      assert deeds[..n] == TriggerDeeds(states[..n + 1], actions[..n], id);
      PolledTriggersAreNext(sub, states[..n + 1], actions[..n], id);
      TriggerSubscriptionSeesSuffix(sub, states[..n + 1], actions[..n], id);
      TriggerDeedPolls(states[n], actions[n], id);
      DeedPicks(
        Q.Along(Seeded(sub, []), deeds[..n]), deeds[n], states[n].triggerSubscriptions, id,
        if actions[n] == PollTrigger(id) then Listed(Polled(states[n].triggerSubscriptions, id).1) else []);
    }
  }
}
