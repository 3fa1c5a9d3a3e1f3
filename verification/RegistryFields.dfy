/** A field subscription that has anything queued ends with the field's current value. */
module RegistryFields {
  import opened Bytes
  import opened ServiceTypes
  import opened ServiceKeys
  import opened ServiceRegistry
  import opened RegistryCalls
  import opened RegistryRuns
  import opened RegistryQueues
  import Q = SubscriptionQueue

  /** The queue is empty or ends with the stored value of its field. */
  ghost predicate Current(values: map<Name, FieldValue>, q: Q.QueueState<FieldValue>) {
    var key := MemberKey(q.subscription.service, q.subscription.eventName);
    && 0 < q.subscription.queueDepth
    && (q.queue != [] ==> key in values && q.queue[|q.queue| - 1] == values[key])
  }

  ghost predicate QueuesCurrent(values: map<Name, FieldValue>, m: map<U64, Q.QueueState<FieldValue>>) {
    forall id <- m :: Current(values, m[id])
  }

  ghost predicate FieldsCurrent(r: Registry) {
    QueuesCurrent(r.fieldValues, r.fieldSubscriptions)
  }

  // ----- the operations on fields -----

  lemma SetKeepsCurrent(values: map<Name, FieldValue>, q: Q.QueueState<FieldValue>, v: FieldValue)
    requires Current(values, q)
    ensures Current(
      values[MemberKey(v.service, v.fieldName) := v],
      if Q.Matches(q, v.service, v.fieldName) then Q.Delivered(q, v) else q)
  {
    hide MemberKey;
    MemberKeyIsInjective(q.subscription.service, q.subscription.eventName, v.service, v.fieldName);
  }

  lemma FieldSetKeepsCurrent(r: Registry, v: FieldValue, authorized: bool)
    requires FieldsCurrent(r)
    ensures FieldsCurrent(FieldSet(r, v, authorized).0)
  {
    hide MemberKey, Current, Q.Delivered, Q.Matches, IsOffered;
    forall id <- r.fieldSubscriptions
      ensures Current(
        r.fieldValues[MemberKey(v.service, v.fieldName) := v.(sequence := r.nextSequence)],
        if Q.Matches(r.fieldSubscriptions[id], v.service, v.fieldName)
        then Q.Delivered(r.fieldSubscriptions[id], v.(sequence := r.nextSequence)) else r.fieldSubscriptions[id])
    {
      SetKeepsCurrent(r.fieldValues, r.fieldSubscriptions[id], v.(sequence := r.nextSequence));
    }
  }

  lemma SubscribeKeepsCurrent(r: Registry, s: ServiceIdentifier, name: Name, depth: nat, authorized: bool)
    requires FieldsCurrent(r)
    ensures FieldsCurrent(FieldSubscribed(r, s, name, depth, authorized).0)
  {
    hide MemberKey, IsOffered;
  }

  lemma PollKeepsCurrent(r: Registry, id: U64)
    requires FieldsCurrent(r)
    ensures QueuesCurrent(r.fieldValues, Polled(r.fieldSubscriptions, id).0)
    ensures QueuesCurrent(r.fieldValues, WithoutId(r.fieldSubscriptions, id))
  {
    hide MemberKey;
  }

  /** Stopping a service takes its field values and its field subscriptions away together. */
  lemma StopKeepsCurrent(r: Registry, s: ServiceIdentifier, failed: bool)
    requires FieldsCurrent(r)
    ensures FieldsCurrent(Stopped(r, s, failed).0)
  {
    hide KeyFor, MemberKey, WithoutPrefix, CallsExcept, FuturesExcept, FuturesOf, AllCancelled;
    forall id | id in r.fieldSubscriptions && r.fieldSubscriptions[id].subscription.service != s
      ensures Current(WithoutPrefix(r.fieldValues, KeyFor(s) + COLON), r.fieldSubscriptions[id])
    {
      var sub := r.fieldSubscriptions[id].subscription;
      PrefixFilter(r.fieldValues, s, sub.service, sub.eventName);
    }
  }

  // ----- every step -----

  lemma StepKeepsCurrent(r: Registry, a: Action)
    requires FieldsCurrent(r) && Returns(r, a)
    ensures FieldsCurrent(Step(r, a))
  {
    hide Step, Returns, QueuesCurrent, FieldSet, FieldSubscribed, Stopped, Polled, Unsubscribed, Increment, WithoutId;
    StepIs(r, a);
    if a.SetField? {
      FieldSetKeepsCurrent(r, a.value, a.authorized);
    } else if a.SubscribeField? {
      SubscribeKeepsCurrent(r, a.service, a.name, a.depth, a.authorized);
    } else if a.StopService? {
      StopKeepsCurrent(r, a.service, a.failed);
    } else if a.Unsubscribe? {
      Unsubscribing(r, a.id);
      PollKeepsCurrent(r, a.id);
    } else if a.PollField? {
      PollKeepsCurrent(r, a.id);
    } else {
      StepStaysApart(r, a);
    }
  }

  /** In every reachable state a non-empty field queue ends with the value that a read of the field returns. */
  lemma {:induction false} FieldQueueEndsWithValue(states: seq<Registry>, actions: seq<Action>)
    requires IsRun(states, actions) && states[0] == Empty()
    ensures forall i :: 0 <= i < |states| ==> FieldsCurrent(states[i])
    decreases |actions|
  {
    hide Step, FieldsCurrent, Returns;
    if actions == [] {
      NoFieldsYet();
    } else {
      var n := |actions| - 1;
      FieldQueueEndsWithValue(states[..n + 1], actions[..n]);
      assert FieldsCurrent(states[..n + 1][n]);
      StepKeepsCurrent(states[n], actions[n]);
    }
  }

  lemma NoFieldsYet()
    ensures FieldsCurrent(Empty())
  {
  }

  // ----- numbers of fields -----

  /** Every stored value carries a number given out before. */
  ghost predicate NumberedBelow(r: Registry) {
    forall k <- r.fieldValues :: r.fieldValues[k].sequence < r.nextSequence
  }

  lemma StopKeepsNumbers(r: Registry, s: ServiceIdentifier, failed: bool)
    requires NumberedBelow(r)
    ensures NumberedBelow(Stopped(r, s, failed).0)
  {
    hide KeyFor, CallsExcept, FuturesExcept, FuturesOf, AllCancelled, QueuesExcept;
  }

  lemma SetKeepsNumbers(r: Registry, v: FieldValue, authorized: bool)
    requires NumberedBelow(r) && FieldSet(r, v, authorized).0.nextSequence != 0
    ensures NumberedBelow(FieldSet(r, v, authorized).0)
  {
    hide MemberKey, IsOffered, DeliveredToAll;
  }

  lemma StepKeepsNumbers(r: Registry, a: Action)
    requires NumberedBelow(r) && Returns(r, a) && Step(r, a).nextSequence != 0
    ensures NumberedBelow(Step(r, a))
  {
    hide FieldSet, Stopped, Returns, NumberedBelow;
    if a.SetField? {
      SetKeepsNumbers(r, a.value, a.authorized);
    } else if a.StopService? {
      StopKeepsNumbers(r, a.service, a.failed);
    } else {
      hide Step;
      StepStaysApart(r, a);
      CounterGrows(r, a);
      LaterKeepsNumbers(r, Step(r, a));
    }
  }

  lemma LaterKeepsNumbers(r: Registry, r': Registry)
    requires NumberedBelow(r) && r'.fieldValues == r.fieldValues && r.nextSequence <= r'.nextSequence
    ensures NumberedBelow(r')
  {
  }

  /** In every reachable state below wrap. */
  lemma {:induction false} FieldsAreNumberedBelow(states: seq<Registry>, actions: seq<Action>)
    requires IsRun(states, actions) && states[0] == Empty() && NeverWraps(states)
    ensures forall i :: 0 <= i < |states| ==> NumberedBelow(states[i])
    decreases |actions|
  {
    hide Step, Returns, NumberedBelow;
    if actions == [] {
      NoValuesYet();
    } else {
      var n := |actions| - 1;
      FieldsAreNumberedBelow(states[..n + 1], actions[..n]);
      assert NumberedBelow(states[..n + 1][n]) && states[n + 1].nextSequence != 0;
      StepKeepsNumbers(states[n], actions[n]);
    }
  }

  lemma NoValuesYet()
    ensures NumberedBelow(Empty())
  {
  }

  /** A new field subscription starts with the stored value, if there is one, which was numbered before. */
  lemma FieldSubscriptionIsSeeded(
    r: Registry, s: ServiceIdentifier, name: Name, depth: nat, authorized: bool)
    requires r.nextSubscriptionId !in r.fieldSubscriptions
    requires FieldSubscribed(r, s, name, depth, authorized).1.Some?
    ensures var (r', sub) := FieldSubscribed(r, s, name, depth, authorized);
      && 0 < sub.value.queueDepth && sub.value.id in r'.fieldSubscriptions
      && r'.fieldSubscriptions[sub.value.id] == Q.QueueState(sub.value, Seed(r, s, name))
      && |Seed(r, s, name)| <= 1
      && (NumberedBelow(r) ==> forall v <- Seed(r, s, name) :: v.sequence < r'.nextSequence)
  {
    hide MemberKey, IsOffered;
  }

  /** A read returns what is queued last. */
  lemma ReadAgreesWithQueue(r: Registry, id: U64)
    requires Invariant(r) && FieldsCurrent(r) && id in r.fieldSubscriptions
    requires r.fieldSubscriptions[id].queue != [] && r.fieldSubscriptions[id].subscription.eventName != []
    ensures var q := r.fieldSubscriptions[id];
      FieldOf(r, q.subscription.service, q.subscription.eventName, true) == Some(q.queue[|q.queue| - 1])
  {
    hide UniquePlaces, CallsOk, ResultsOk, FuturesOk, MemberKey, IsOffered;
  }
}
