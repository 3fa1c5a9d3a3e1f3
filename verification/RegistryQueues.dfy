/** What event, field and trigger subscriptions hold over runs of the registry. */
module RegistryQueues {
  import opened Bytes
  import opened ServiceTypes
  import opened ServiceKeys
  import opened ServiceRegistry
  import opened RegistryCalls
  import opened RegistryRuns
  import Q = SubscriptionQueue

  // ----- which operations touch what -----

  predicate TouchesEvents(a: Action) {
    a.Subscribe? || a.Unsubscribe? || a.Publish? || a.PollEvent?
  }

  predicate TouchesFields(a: Action) {
    a.SetField? || a.SubscribeField? || a.Unsubscribe? || a.PollField? || a.StopService?
  }

  predicate TouchesTriggers(a: Action) {
    a.SubscribeTrigger? || a.Unsubscribe? || a.FireTrigger? || a.PollTrigger? || a.StopService?
  }

  predicate TakesNumber(a: Action) {
    a.Publish? || a.SetField? || a.FireTrigger?
  }

  predicate SameEvents(r: Registry, r': Registry) {
    r'.subscriptions == r.subscriptions
  }

  predicate SameFields(r: Registry, r': Registry) {
    r'.fieldSubscriptions == r.fieldSubscriptions && r'.fieldValues == r.fieldValues
  }

  predicate SameTriggers(r: Registry, r': Registry) {
    r'.triggerSubscriptions == r.triggerSubscriptions
  }

  predicate SameQueues(r: Registry, r': Registry) {
    SameEvents(r, r') && SameFields(r, r') && SameTriggers(r, r') && r'.nextSequence == r.nextSequence
  }

  lemma SubmittingLeavesQueues(r: Registry, c: MethodCall, authorized: bool)
    requires c.correlationId == 0 ==> CanAllocate(r)
    ensures SameQueues(r, Submitted(r, c, authorized).0) && SameQueues(r, FutureSubmitted(r, c, authorized).0)
  {
    hide KeyFor, MemberKey, IsOffered, Identified, Pushed, Emplaced, CanAllocate;
  }

  lemma TakingLeavesQueues(r: Registry, s: ServiceIdentifier, name: Name, id: U64)
    ensures SameQueues(r, CallTaken(r, s, name).0) && SameQueues(r, ResultTaken(r, s, name, id).0)
  {
    hide KeyFor, MemberKey, IsOffered, Popped, RemovedAt, FindResult;
  }

  lemma CompletingLeavesQueues(r: Registry, x: MethodResult, authorized: bool)
    ensures SameQueues(r, CallCompleted(r, x, authorized).0)
  {
    hide KeyFor, MemberKey, IsOffered, Pushed;
  }

  lemma OfferingLeavesQueues(r: Registry, o: Offer, authorized: bool)
    ensures SameQueues(r, Offered(r, o, authorized).0)
  {
    hide KeyFor, ValidOffer;
  }

  /** The stop of a service takes its field and trigger queues away and touches no other. */
  lemma StoppingKeepsOthers(r: Registry, s: ServiceIdentifier, failed: bool)
    ensures var r' := Stopped(r, s, failed).0;
      && SameEvents(r, r') && r'.nextSequence == r.nextSequence
      && (r'.fieldSubscriptions == r.fieldSubscriptions
          || r'.fieldSubscriptions == QueuesExcept(r.fieldSubscriptions, s))
      && (r'.triggerSubscriptions == r.triggerSubscriptions
          || r'.triggerSubscriptions == QueuesExcept(r.triggerSubscriptions, s))
  {
    hide KeyFor, WithoutPrefix, CallsExcept, FuturesExcept, FuturesOf, AllCancelled, QueuesExcept;
  }

  lemma EventSubscribing(r: Registry, s: ServiceIdentifier, name: Name, depth: nat, authorized: bool)
    ensures var (r', sub) := EventSubscribed(r, s, name, depth, authorized);
      && SameFields(r, r') && SameTriggers(r, r') && r'.nextSequence == r.nextSequence
      && r'.subscriptions ==
           if sub.None? then r.subscriptions
           else Emplaced(r.subscriptions, sub.value.id, Q.QueueState(sub.value, []))
  {
    hide NewSubscription, Emplaced, Increment;
    var sub := NewSubscription(r, s, name, depth, authorized);
    if sub.Some? {
      assert EventSubscribed(r, s, name, depth, authorized).0 == r.(
        nextSubscriptionId := Increment(r.nextSubscriptionId),
        subscriptions := Emplaced(r.subscriptions, sub.value.id, Q.QueueState(sub.value, [])));
    }
  }

  lemma FieldSubscribing(r: Registry, s: ServiceIdentifier, name: Name, depth: nat, authorized: bool)
    ensures var (r', sub) := FieldSubscribed(r, s, name, depth, authorized);
      && SameEvents(r, r') && SameTriggers(r, r') && r'.nextSequence == r.nextSequence
      && r'.fieldValues == r.fieldValues
      && r'.fieldSubscriptions ==
           if sub.None? then r.fieldSubscriptions
           else Emplaced(r.fieldSubscriptions, sub.value.id, Q.QueueState(sub.value, Seed(r, s, name)))
  {
    hide NewSubscription, Emplaced, Seed, Increment;
    var sub := NewSubscription(r, s, name, depth, authorized);
    if sub.Some? {
      assert FieldSubscribed(r, s, name, depth, authorized).0 == r.(
        nextSubscriptionId := Increment(r.nextSubscriptionId),
        fieldSubscriptions := Emplaced(r.fieldSubscriptions, sub.value.id, Q.QueueState(sub.value, Seed(r, s, name))));
    }
  }

  lemma TriggerSubscribing(r: Registry, s: ServiceIdentifier, name: Name, depth: nat, authorized: bool)
    ensures var (r', sub) := TriggerSubscribed(r, s, name, depth, authorized);
      && SameEvents(r, r') && SameFields(r, r') && r'.nextSequence == r.nextSequence
      && r'.triggerSubscriptions ==
           if sub.None? then r.triggerSubscriptions
           else Emplaced(r.triggerSubscriptions, sub.value.id, Q.QueueState(sub.value, []))
  {
    hide NewSubscription, Emplaced, Increment;
    var sub := NewSubscription(r, s, name, depth, authorized);
    if sub.Some? {
      assert TriggerSubscribed(r, s, name, depth, authorized).0 == r.(
        nextSubscriptionId := Increment(r.nextSubscriptionId),
        triggerSubscriptions := Emplaced(r.triggerSubscriptions, sub.value.id, Q.QueueState(sub.value, [])));
    }
  }

  lemma Unsubscribing(r: Registry, id: U64)
    ensures var r' := Unsubscribed(r, id).0;
      && r'.nextSequence == r.nextSequence && r'.fieldValues == r.fieldValues
      && r'.subscriptions == WithoutId(r.subscriptions, id)
      && r'.fieldSubscriptions == WithoutId(r.fieldSubscriptions, id)
      && r'.triggerSubscriptions == WithoutId(r.triggerSubscriptions, id)
  {
    hide WithoutId;
  }

  lemma Publishing(r: Registry, x: EventSample, authorized: bool)
    ensures var (r', number) := Published(r, x, authorized);
      && SameFields(r, r') && SameTriggers(r, r')
      && (if number.None? then r' == r
          else
            && r'.nextSequence == Increment(r.nextSequence)
            && r'.subscriptions ==
                 DeliveredToAll(r.subscriptions, x.service, x.eventName, x.(sequence := r.nextSequence)))
  {
    hide IsOffered, DeliveredToAll, Increment;
  }

  lemma Setting(r: Registry, v: FieldValue, authorized: bool)
    ensures var (r', stored) := FieldSet(r, v, authorized);
      && SameEvents(r, r') && SameTriggers(r, r')
      && (if stored.None? then r' == r
          else
            && r'.nextSequence == Increment(r.nextSequence)
            && r'.fieldSubscriptions ==
                 DeliveredToAll(r.fieldSubscriptions, v.service, v.fieldName, v.(sequence := r.nextSequence)))
  {
    hide IsOffered, MemberKey, DeliveredToAll, Increment;
  }

  lemma Firing(r: Registry, x: TriggerActivation, authorized: bool)
    ensures var (r', fired) := TriggerFired(r, x, authorized);
      && SameEvents(r, r') && SameFields(r, r')
      && (if fired.None? then r' == r
          else
            && r'.nextSequence == Increment(r.nextSequence)
            && r'.triggerSubscriptions ==
                 DeliveredToAll(r.triggerSubscriptions, x.service, x.triggerName, x.(sequence := r.nextSequence)))
  {
    hide IsOffered, DeliveredToAll, Increment;
  }

  predicate Apart(r: Registry, a: Action, r': Registry) {
    && (!TouchesEvents(a) ==> SameEvents(r, r'))
    && (!TouchesFields(a) ==> SameFields(r, r'))
    && (!TouchesTriggers(a) ==> SameTriggers(r, r'))
    && (!a.SetField? && !a.StopService? ==> r'.fieldValues == r.fieldValues)
    && (r'.nextSequence == r.nextSequence || (TakesNumber(a) && r'.nextSequence == Increment(r.nextSequence)))
  }

  /** What each step that touches queues does. */
  lemma StepIs(r: Registry, a: Action)
    requires Returns(r, a)
    ensures a.StopService? ==> Step(r, a) == Stopped(r, a.service, a.failed).0
    ensures a.Subscribe? ==> Step(r, a) == EventSubscribed(r, a.service, a.name, a.depth, a.authorized).0
    ensures a.SubscribeField? ==> Step(r, a) == FieldSubscribed(r, a.service, a.name, a.depth, a.authorized).0
    ensures a.SubscribeTrigger? ==> Step(r, a) == TriggerSubscribed(r, a.service, a.name, a.depth, a.authorized).0
    ensures a.Unsubscribe? ==> Step(r, a) == Unsubscribed(r, a.id).0
    ensures a.Publish? ==> Step(r, a) == Published(r, a.sample, a.authorized).0
    ensures a.SetField? ==> Step(r, a) == FieldSet(r, a.value, a.authorized).0
    ensures a.FireTrigger? ==> Step(r, a) == TriggerFired(r, a.activation, a.authorized).0
    ensures a.PollEvent? ==> Step(r, a) == r.(subscriptions := Polled(r.subscriptions, a.id).0)
    ensures a.PollField? ==> Step(r, a) == r.(fieldSubscriptions := Polled(r.fieldSubscriptions, a.id).0)
    ensures a.PollTrigger? ==> Step(r, a) == r.(triggerSubscriptions := Polled(r.triggerSubscriptions, a.id).0)
  {
    hide Stopped, EventSubscribed, FieldSubscribed, TriggerSubscribed, Unsubscribed, Published, FieldSet;
    hide TriggerFired, Polled, Submitted, FutureSubmitted, CallTaken, CallCompleted, ResultTaken, Offered;
    hide CanAllocate;
  }

  /** Every operation touches only its own kind of queue. */
  lemma StepStaysApart(r: Registry, a: Action)
    requires Returns(r, a)
    ensures Apart(r, a, Step(r, a))
  {
    hide Offered, Stopped, EventSubscribed, FieldSubscribed, TriggerSubscribed, Unsubscribed, Published, FieldSet;
    hide TriggerFired, Polled, Submitted, FutureSubmitted, CallTaken, CallCompleted, ResultTaken, Increment;
    hide Emplaced, WithoutId, DeliveredToAll, QueuesExcept, CanAllocate;
    match a
    case OfferService(o, authorized) => OfferingLeavesQueues(r, o, authorized);
    case StopService(s, failed) => StoppingKeepsOthers(r, s, failed);
    case Subscribe(s, name, depth, authorized) => EventSubscribing(r, s, name, depth, authorized);
    case SubscribeField(s, name, depth, authorized) => FieldSubscribing(r, s, name, depth, authorized);
    case SubscribeTrigger(s, name, depth, authorized) => TriggerSubscribing(r, s, name, depth, authorized);
    case Unsubscribe(id) => Unsubscribing(r, id);
    case Publish(x, authorized) => Publishing(r, x, authorized);
    case SetField(v, authorized) => Setting(r, v, authorized);
    case FireTrigger(x, authorized) => Firing(r, x, authorized);
    case SubmitCall(c, authorized) => SubmittingLeavesQueues(r, c, authorized);
    case SubmitFuture(c, authorized) => SubmittingLeavesQueues(r, c, authorized);
    case TakeCall(s, name) => TakingLeavesQueues(r, s, name, 0);
    case CompleteCall(x, authorized) => CompletingLeavesQueues(r, x, authorized);
    case TakeResult(s, name, id) => TakingLeavesQueues(r, s, name, id);
    case _ =>
  }

  lemma OwnKindOnly(r: Registry, a: Action)
    requires Returns(r, a)
    ensures !TouchesEvents(a) ==> Step(r, a).subscriptions == r.subscriptions
    ensures !TouchesFields(a) ==> Step(r, a).fieldSubscriptions == r.fieldSubscriptions
    ensures !TouchesTriggers(a) ==> Step(r, a).triggerSubscriptions == r.triggerSubscriptions
  {
    hide Step, Returns, Increment;
    StepStaysApart(r, a);
  }

  // ----- single entries -----

  lemma DeliveredEntry<T>(m: map<U64, Q.QueueState<T>>, s: ServiceIdentifier, name: Name, sample: T, id: U64)
    requires id in m
    ensures var m' := DeliveredToAll(m, s, name, sample);
      id in m' && m'[id] == if Q.Matches(m[id], s, name) then Q.Delivered(m[id], sample) else m[id]
  {
  }

  lemma PolledEntry<T>(m: map<U64, Q.QueueState<T>>, polled: U64, id: U64)
    requires id in m
    ensures var m' := Polled(m, polled).0;
      id in m' && m'[id] == Q.Moved(m[id], if polled == id then Some(Q.Poll) else None)
  {
  }

  /** An entry that is there already is not touched by the addition or removal of others. */
  lemma EntryStays<T>(m: map<U64, Q.QueueState<T>>, other: U64, q: Q.QueueState<T>, id: U64)
    requires id in m
    ensures id in Emplaced(m, other, q) && Emplaced(m, other, q)[id] == m[id]
    ensures if id == other then id !in WithoutId(m, other)
            else id in WithoutId(m, other) && WithoutId(m, other)[id] == m[id]
  {
  }

  lemma ExceptEntry<T>(m: map<U64, Q.QueueState<T>>, s: ServiceIdentifier, id: U64)
    requires id in m
    ensures if m[id].subscription.service == s then id !in QueuesExcept(m, s)
            else id in QueuesExcept(m, s) && QueuesExcept(m, s)[id] == m[id]
  {
  }

  lemma NothingMoves<T>(q: Q.QueueState<T>)
    ensures Q.Moved(q, None) == q
  {
  }

  // ----- event subscriptions -----

  /** What the step does to the queue of event subscription `id`. */
  function EventDeed(r: Registry, a: Action, id: U64): Option<Q.Action<EventSample>> {
    if a.Publish? && Published(r, a.sample, a.authorized).1.Some?
       && id in r.subscriptions && Q.Matches(r.subscriptions[id], a.sample.service, a.sample.eventName)
    then Some(Q.Push(a.sample.(sequence := r.nextSequence)))
    else if a.PollEvent? && a.id == id then Some(Q.Poll)
    else None
  }

  lemma Pushes<T>(q: Q.QueueState<T>, x: T)
    ensures Q.Moved(q, Some(Q.Push(x))) == Q.Delivered(q, x)
  {
  }

  /** No other step touches the queue, and only unsubscribing removes it. */
  lemma EventQueueFollows(r: Registry, a: Action, id: U64)
    requires Returns(r, a) && id in r.subscriptions
    ensures var q, after := r.subscriptions[id], Step(r, a).subscriptions;
      if id in after then after[id] == Q.Moved(q, EventDeed(r, a, id)) else a == Unsubscribe(id)
    ensures var deed := EventDeed(r, a, id);
      deed.Some? && deed.value.Push? ==>
        deed.value.sample.sequence == r.nextSequence && Step(r, a).nextSequence == Increment(r.nextSequence)
  {
    hide Returns, Stopped, EventSubscribed, FieldSubscribed, TriggerSubscribed, Unsubscribed, Published, FieldSet;
    hide TriggerFired, Polled, Submitted, FutureSubmitted, CallTaken, CallCompleted, ResultTaken, Increment, Offered;
    hide Emplaced, WithoutId, DeliveredToAll, QueuesExcept, CanAllocate, Q.Moved, Q.Matches, Seed, Step, Apart;
    StepIs(r, a);
    OwnKindOnly(r, a);
    var m := r.subscriptions;
    NothingMoves(m[id]);
    match a
    case Publish(x, authorized) =>
      Publishing(r, x, authorized);
      DeliveredEntry(m, x.service, x.eventName, x.(sequence := r.nextSequence), id);
      Pushes(m[id], x.(sequence := r.nextSequence));
    case Subscribe(s, name, depth, authorized) =>
      EventSubscribing(r, s, name, depth, authorized);
      var sub := EventSubscribed(r, s, name, depth, authorized).1;
      if sub.Some? {
        EntryStays(m, sub.value.id, Q.QueueState(sub.value, []), id);
      }
    case Unsubscribe(other) =>
      Unsubscribing(r, other);
      EntryStays(m, other, m[id], id);
    case PollEvent(polled) => PolledEntry(m, polled, id);
    case _ =>
  }

  // ----- field subscriptions -----

  function FieldDeed(r: Registry, a: Action, id: U64): Option<Q.Action<FieldValue>> {
    if a.SetField? && FieldSet(r, a.value, a.authorized).1.Some?
       && id in r.fieldSubscriptions && Q.Matches(r.fieldSubscriptions[id], a.value.service, a.value.fieldName)
    then Some(Q.Push(a.value.(sequence := r.nextSequence)))
    else if a.PollField? && a.id == id then Some(Q.Poll)
    else None
  }

  /** Besides unsubscribing, the stop of its service removes a field or trigger subscription. */
  predicate Removes(a: Action, id: U64, service: ServiceIdentifier) {
    a == Unsubscribe(id) || (a.StopService? && a.service == service)
  }

  lemma FieldQueueFollows(r: Registry, a: Action, id: U64)
    requires Returns(r, a) && id in r.fieldSubscriptions
    ensures var q, after := r.fieldSubscriptions[id], Step(r, a).fieldSubscriptions;
      if id in after then after[id] == Q.Moved(q, FieldDeed(r, a, id)) else Removes(a, id, q.subscription.service)
    ensures var deed := FieldDeed(r, a, id);
      deed.Some? && deed.value.Push? ==>
        deed.value.sample.sequence == r.nextSequence && Step(r, a).nextSequence == Increment(r.nextSequence)
  {
    hide Returns, Stopped, EventSubscribed, FieldSubscribed, TriggerSubscribed, Unsubscribed, Published, FieldSet;
    hide TriggerFired, Polled, Submitted, FutureSubmitted, CallTaken, CallCompleted, ResultTaken, Increment, Offered;
    hide Emplaced, WithoutId, DeliveredToAll, QueuesExcept, CanAllocate, Q.Moved, Q.Matches, Seed, Step, Apart;
    StepIs(r, a);
    OwnKindOnly(r, a);
    var m := r.fieldSubscriptions;
    NothingMoves(m[id]);
    match a
    case SetField(v, authorized) =>
      Setting(r, v, authorized);
      DeliveredEntry(m, v.service, v.fieldName, v.(sequence := r.nextSequence), id);
      Pushes(m[id], v.(sequence := r.nextSequence));
    case SubscribeField(s, name, depth, authorized) =>
      FieldSubscribing(r, s, name, depth, authorized);
      var sub := FieldSubscribed(r, s, name, depth, authorized).1;
      if sub.Some? {
        EntryStays(m, sub.value.id, Q.QueueState(sub.value, Seed(r, s, name)), id);
      }
    case Unsubscribe(other) =>
      Unsubscribing(r, other);
      EntryStays(m, other, m[id], id);
    case PollField(polled) => PolledEntry(m, polled, id);
    case StopService(s, failed) =>
      StoppingKeepsOthers(r, s, failed);
      ExceptEntry(m, s, id);
    case _ =>
  }

  // ----- trigger subscriptions -----

  function TriggerDeed(r: Registry, a: Action, id: U64): Option<Q.Action<TriggerActivation>> {
    if a.FireTrigger? && TriggerFired(r, a.activation, a.authorized).1.Some?
       && id in r.triggerSubscriptions
       && Q.Matches(r.triggerSubscriptions[id], a.activation.service, a.activation.triggerName)
    then Some(Q.Push(a.activation.(sequence := r.nextSequence)))
    else if a.PollTrigger? && a.id == id then Some(Q.Poll)
    else None
  }

  lemma TriggerQueueFollows(r: Registry, a: Action, id: U64)
    requires Returns(r, a) && id in r.triggerSubscriptions
    ensures var q, after := r.triggerSubscriptions[id], Step(r, a).triggerSubscriptions;
      if id in after then after[id] == Q.Moved(q, TriggerDeed(r, a, id)) else Removes(a, id, q.subscription.service)
    ensures var deed := TriggerDeed(r, a, id);
      deed.Some? && deed.value.Push? ==>
        deed.value.sample.sequence == r.nextSequence && Step(r, a).nextSequence == Increment(r.nextSequence)
  {
    hide Returns, Stopped, EventSubscribed, FieldSubscribed, TriggerSubscribed, Unsubscribed, Published, FieldSet;
    hide TriggerFired, Polled, Submitted, FutureSubmitted, CallTaken, CallCompleted, ResultTaken, Increment, Offered;
    hide Emplaced, WithoutId, DeliveredToAll, QueuesExcept, CanAllocate, Q.Moved, Q.Matches, Seed, Step, Apart;
    StepIs(r, a);
    OwnKindOnly(r, a);
    var m := r.triggerSubscriptions;
    NothingMoves(m[id]);
    match a
    case FireTrigger(x, authorized) =>
      Firing(r, x, authorized);
      DeliveredEntry(m, x.service, x.triggerName, x.(sequence := r.nextSequence), id);
      Pushes(m[id], x.(sequence := r.nextSequence));
    case SubscribeTrigger(s, name, depth, authorized) =>
      TriggerSubscribing(r, s, name, depth, authorized);
      var sub := TriggerSubscribed(r, s, name, depth, authorized).1;
      if sub.Some? {
        EntryStays(m, sub.value.id, Q.QueueState(sub.value, []), id);
      }
    case Unsubscribe(other) =>
      Unsubscribing(r, other);
      EntryStays(m, other, m[id], id);
    case PollTrigger(polled) => PolledEntry(m, polled, id);
    case StopService(s, failed) =>
      StoppingKeepsOthers(r, s, failed);
      ExceptEntry(m, s, id);
    case _ =>
  }

  // ----- runs -----

  /** Below wrap: no state of the run has its sequence counter at zero. */
  ghost predicate NeverWraps(states: seq<Registry>) {
    forall i :: 0 <= i < |states| ==> states[i].nextSequence != 0
  }

  function Counters(states: seq<Registry>): seq<U64> {
    seq(|states|, i requires 0 <= i < |states| => states[i].nextSequence)
  }

  lemma CounterGrows(r: Registry, a: Action)
    requires Returns(r, a) && Step(r, a).nextSequence != 0
    ensures r.nextSequence <= Step(r, a).nextSequence
    ensures Step(r, a).nextSequence == Increment(r.nextSequence) ==> r.nextSequence < Step(r, a).nextSequence
  {
    hide Step, Returns;
    StepStaysApart(r, a);
  }

  lemma CountersGrow(states: seq<Registry>, actions: seq<Action>)
    requires IsRun(states, actions) && NeverWraps(states)
    ensures forall i :: 0 <= i < |actions| ==>
      && states[i].nextSequence <= states[i + 1].nextSequence
      && (states[i + 1].nextSequence == Increment(states[i].nextSequence) ==>
            states[i].nextSequence < states[i + 1].nextSequence)
  {
    hide Step, Returns, Increment;
    forall i | 0 <= i < |actions|
      ensures states[i].nextSequence <= states[i + 1].nextSequence
      ensures states[i + 1].nextSequence == Increment(states[i].nextSequence) ==>
        states[i].nextSequence < states[i + 1].nextSequence
    {
      assert states[i + 1] == Step(states[i], actions[i]) && states[i + 1].nextSequence != 0;
      CounterGrows(states[i], actions[i]);
    }
  }

  /** A queue that starts with `seed` when it is subscribed to. */
  function Seeded<T>(sub: Q.Subscription, seed: seq<T>): Q.History<T> {
    Q.History(Q.QueueState(sub, seed), seed, 0, [])
  }

  /** What a run does to a queue that is a suffix of what matched, and what numbers it shows. */
  ghost predicate SeesSuffix<T>(
    sub: Q.Subscription, seed: seq<T>, deeds: seq<Option<Q.Action<T>>>, end: Q.QueueState<T>)
  {
    var h := Q.Along(Seeded(sub, seed), deeds);
    h.state == end && end.subscription == sub && Q.QueueIsSuffix(h)
  }

  function EventDeeds(states: seq<Registry>, actions: seq<Action>, id: U64): seq<Option<Q.Action<EventSample>>>
    requires |states| == |actions| + 1
  {
    seq(|actions|, i requires 0 <= i < |actions| => EventDeed(states[i], actions[i], id))
  }

  function FieldDeeds(states: seq<Registry>, actions: seq<Action>, id: U64): seq<Option<Q.Action<FieldValue>>>
    requires |states| == |actions| + 1
  {
    seq(|actions|, i requires 0 <= i < |actions| => FieldDeed(states[i], actions[i], id))
  }

  function TriggerDeeds(states: seq<Registry>, actions: seq<Action>, id: U64)
    : seq<Option<Q.Action<TriggerActivation>>>
    requires |states| == |actions| + 1
  {
    seq(|actions|, i requires 0 <= i < |actions| => TriggerDeed(states[i], actions[i], id))
  }

  lemma SeedIsSuffix<T>(sub: Q.Subscription, seed: seq<T>)
    requires |seed| <= sub.queueDepth
    ensures Q.QueueIsSuffix(Seeded(sub, seed))
  {
  }

  /**
   From the moment it is made until it is cancelled, an event subscription's queue is a suffix of the
   samples published for its service and event since then, never longer than its depth; a sample is lost
   only after `depth` newer matching ones; and, below wrap, the samples carry increasing numbers.
   */
  lemma SubscriptionSeesSuffix(sub: Q.Subscription, states: seq<Registry>, actions: seq<Action>, id: U64)
    requires IsRun(states, actions) && 0 < sub.queueDepth
    requires forall i :: 0 <= i < |states| ==> id in states[i].subscriptions
    requires states[0].subscriptions[id] == Q.QueueState(sub, [])
    ensures var deeds := EventDeeds(states, actions, id);
      && SeesSuffix(sub, [], deeds, states[|actions|].subscriptions[id])
      && (NeverWraps(states) ==>
            Q.Rising(
              Q.Along(Seeded(sub, []), deeds).matched, (x: EventSample) => x.sequence,
              states[|actions|].nextSequence))
  {
    hide Step, Returns, EventDeed, Q.Moved, Q.Along, Q.QueueIsSuffix, Increment;
    var deeds := EventDeeds(states, actions, id);
    var queues := seq(|states|, i requires 0 <= i < |states| => states[i].subscriptions[id]);
    forall i | 0 <= i < |actions|
      ensures queues[i + 1] == Q.Moved(queues[i], deeds[i])
    {
      EventQueueFollows(states[i], actions[i], id);
    }
    SeedIsSuffix<EventSample>(sub, []);
    Q.SuffixAlong(Seeded(sub, []), queues, deeds);
    if NeverWraps(states) {
      CountersGrow(states, actions);
      var counters, number := Counters(states), (x: EventSample) => x.sequence;
      forall i | 0 <= i < |actions| && deeds[i].Some? && deeds[i].value.Push?
        ensures number(deeds[i].value.sample) == counters[i] < counters[i + 1]
      {
        EventQueueFollows(states[i], actions[i], id);
      }
      Q.NumbersAlong(Seeded(sub, []), deeds, counters, number);
    }
  }

  /**
   The same for a field subscription, until it is cancelled or its service stops. Its queue starts with the
   value stored when it was made, if there was one.
   */
  lemma FieldSubscriptionSeesSuffix(
    sub: Q.Subscription, seed: seq<FieldValue>, states: seq<Registry>, actions: seq<Action>, id: U64)
    requires IsRun(states, actions) && 0 < sub.queueDepth && |seed| <= 1
    requires forall i :: 0 <= i < |states| ==> id in states[i].fieldSubscriptions
    requires states[0].fieldSubscriptions[id] == Q.QueueState(sub, seed)
    ensures var deeds := FieldDeeds(states, actions, id);
      && SeesSuffix(sub, seed, deeds, states[|actions|].fieldSubscriptions[id])
      && (NeverWraps(states) && (forall v <- seed :: v.sequence < states[0].nextSequence) ==>
            Q.Rising(
              Q.Along(Seeded(sub, seed), deeds).matched, (x: FieldValue) => x.sequence,
              states[|actions|].nextSequence))
  {
    hide Step, Returns, FieldDeed, Q.Moved, Q.Along, Q.QueueIsSuffix, Increment;
    var deeds := FieldDeeds(states, actions, id);
    var queues := seq(|states|, i requires 0 <= i < |states| => states[i].fieldSubscriptions[id]);
    forall i | 0 <= i < |actions|
      ensures queues[i + 1] == Q.Moved(queues[i], deeds[i])
    {
      FieldQueueFollows(states[i], actions[i], id);
    }
    SeedIsSuffix(sub, seed);
    Q.SuffixAlong(Seeded(sub, seed), queues, deeds);
    if NeverWraps(states) && forall v <- seed :: v.sequence < states[0].nextSequence {
      CountersGrow(states, actions);
      var counters, number := Counters(states), (x: FieldValue) => x.sequence;
      forall i | 0 <= i < |actions| && deeds[i].Some? && deeds[i].value.Push?
        ensures number(deeds[i].value.sample) == counters[i] < counters[i + 1]
      {
        FieldQueueFollows(states[i], actions[i], id);
      }
      Q.NumbersAlong(Seeded(sub, seed), deeds, counters, number);
    }
  }

  /** The same for a trigger subscription, until it is cancelled or its service stops. */
  lemma TriggerSubscriptionSeesSuffix(
    sub: Q.Subscription, states: seq<Registry>, actions: seq<Action>, id: U64)
    requires IsRun(states, actions) && 0 < sub.queueDepth
    requires forall i :: 0 <= i < |states| ==> id in states[i].triggerSubscriptions
    requires states[0].triggerSubscriptions[id] == Q.QueueState(sub, [])
    ensures var deeds := TriggerDeeds(states, actions, id);
      && SeesSuffix(sub, [], deeds, states[|actions|].triggerSubscriptions[id])
      && (NeverWraps(states) ==>
            Q.Rising(
              Q.Along(Seeded(sub, []), deeds).matched, (x: TriggerActivation) => x.sequence,
              states[|actions|].nextSequence))
  {
    hide Step, Returns, TriggerDeed, Q.Moved, Q.Along, Q.QueueIsSuffix, Increment;
    var deeds := TriggerDeeds(states, actions, id);
    var queues := seq(|states|, i requires 0 <= i < |states| => states[i].triggerSubscriptions[id]);
    forall i | 0 <= i < |actions|
      ensures queues[i + 1] == Q.Moved(queues[i], deeds[i])
    {
      TriggerQueueFollows(states[i], actions[i], id);
    }
    SeedIsSuffix<TriggerActivation>(sub, []);
    Q.SuffixAlong(Seeded(sub, []), queues, deeds);
    if NeverWraps(states) {
      CountersGrow(states, actions);
      var counters, number := Counters(states), (x: TriggerActivation) => x.sequence;
      forall i | 0 <= i < |actions| && deeds[i].Some? && deeds[i].value.Push?
        ensures number(deeds[i].value.sample) == counters[i] < counters[i + 1]
      {
        TriggerQueueFollows(states[i], actions[i], id);
      }
      Q.NumbersAlong(Seeded(sub, []), deeds, counters, number);
    }
  }
}
