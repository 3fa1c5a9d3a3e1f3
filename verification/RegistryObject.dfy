/** The registry as an object whose methods update its maps and queues in place. */
module RegistryObject {
  import opened Bytes
  import opened ServiceTypes
  import opened ServiceKeys
  import opened SubscriptionQueue
  import opened ServiceRegistry

  class Registrar {
    var offers: map<Name, Offer>
    var subscriptions: map<U64, QueueState<EventSample>>
    var fieldSubscriptions: map<U64, QueueState<FieldValue>>
    var triggerSubscriptions: map<U64, QueueState<TriggerActivation>>
    var pendingCalls: map<Name, seq<MethodCall>>
    var inFlight: map<U64, MethodCall>
    var pendingResults: map<Name, seq<MethodResult>>
    var futures: map<U64, FutureState>
    var fieldValues: map<Name, FieldValue>
    var nextSubscriptionId: U64
    var nextSequence: U64
    var nextCorrelationId: U64
    var settled: map<nat, Outcome>
    var nextFuture: nat

    constructor ()
      ensures State() == Empty()
    {
      offers, subscriptions, fieldSubscriptions, triggerSubscriptions := map[], map[], map[], map[];
      pendingCalls, inFlight, pendingResults, futures, fieldValues := map[], map[], map[], map[], map[];
      nextSubscriptionId, nextSequence, nextCorrelationId, settled, nextFuture := 1, 1, 1, map[], 0;
    }

    ghost function State(): Registry
      reads this
    {
      Registry(
        offers, subscriptions, fieldSubscriptions, triggerSubscriptions, pendingCalls, inFlight, pendingResults,
        futures, fieldValues, nextSubscriptionId, nextSequence, nextCorrelationId, settled, nextFuture)
    }

    // ----- offers -----

    method OfferService(o: Offer, authorized: bool) returns (ok: bool)
      modifies this
      ensures (State(), ok) == Offered(old(State()), o, authorized)
    {
      if !ValidOffer(o) || !authorized {
        return false;
      }
      offers := offers[KeyFor(o.service) := o.(offered := true)];
      return true;
    }

    method StopOffer(s: ServiceIdentifier) returns (ok: bool)
      modifies this
      ensures (State(), ok) == Stopped(old(State()), s, false)
    {
      hide KeyFor, Erased;
      if KeyFor(s) !in offers {
        return false;
      }
      offers := offers[KeyFor(s) := offers[KeyFor(s)].(offered := false)];
      EraseStateFor(s);
      return true;
    }

    method InvalidateEndpoint(s: ServiceIdentifier)
      modifies this
      ensures State() == Stopped(old(State()), s, true).0
    {
      hide KeyFor, Erased;
      if KeyFor(s) !in offers {
        return;
      }
      offers := offers[KeyFor(s) := offers[KeyFor(s)].(offered := false, healthy := false)];
      EraseStateFor(s);
    }

    method EraseStateFor(s: ServiceIdentifier)
      modifies this
      ensures State() == Erased(old(State()), s)
    {
      hide KeyFor, WithoutPrefix, CallsExcept, FuturesExcept, FuturesOf, AllCancelled, QueuesExcept;
      EraseMethodQueuesFor(s);
      EraseFieldStateFor(s);
      EraseTriggerStateFor(s);
    }

    method EraseMethodQueuesFor(s: ServiceIdentifier)
      modifies `pendingCalls, `pendingResults, `inFlight, `futures, `settled
      ensures pendingCalls == WithoutPrefix(old(pendingCalls), KeyFor(s) + COLON)
      ensures pendingResults == WithoutPrefix(old(pendingResults), KeyFor(s) + COLON)
      ensures inFlight == CallsExcept(old(inFlight), s)
      ensures futures == FuturesExcept(old(futures), s)
      ensures settled == old(settled) + AllCancelled(FuturesOf(old(futures), s))
    {
      hide KeyFor, WithoutPrefix, CallsExcept, FuturesExcept, FuturesOf, AllCancelled;
      pendingCalls := ErasePrefix(pendingCalls, KeyFor(s) + COLON);
      pendingResults := ErasePrefix(pendingResults, KeyFor(s) + COLON);
      inFlight := EraseCalls(inFlight, s);
      futures, settled := CancelFutures(futures, s, settled);
    }

    method EraseFieldStateFor(s: ServiceIdentifier)
      modifies `fieldValues, `fieldSubscriptions
      ensures fieldValues == WithoutPrefix(old(fieldValues), KeyFor(s) + COLON)
      ensures fieldSubscriptions == QueuesExcept(old(fieldSubscriptions), s)
    {
      hide KeyFor, WithoutPrefix, QueuesExcept;
      fieldValues := ErasePrefix(fieldValues, KeyFor(s) + COLON);
      fieldSubscriptions := EraseQueues(fieldSubscriptions, s);
    }

    method EraseTriggerStateFor(s: ServiceIdentifier)
      modifies `triggerSubscriptions
      ensures triggerSubscriptions == QueuesExcept(old(triggerSubscriptions), s)
    {
      triggerSubscriptions := EraseQueues(triggerSubscriptions, s);
    }

    // ----- subscriptions -----

    method Subscribe(s: ServiceIdentifier, name: Name, depth: nat, authorized: bool) returns (r: Option<Subscription>)
      modifies this
      ensures (State(), r) == EventSubscribed(old(State()), s, name, depth, authorized)
    {
      hide KeyFor;
      if !IsOffered(offers, s) || name == [] || depth == 0 || depth > MAX_QUEUE_DEPTH || !authorized {
        return None;
      }
      var sub := Subscription(nextSubscriptionId, s, name, depth);
      nextSubscriptionId := Increment(nextSubscriptionId);
      subscriptions := Emplaced(subscriptions, sub.id, QueueState(sub, []));
      return Some(sub);
    }

    method SubscribeField(s: ServiceIdentifier, name: Name, depth: nat, authorized: bool)
      returns (r: Option<Subscription>)
      modifies this
      ensures (State(), r) == FieldSubscribed(old(State()), s, name, depth, authorized)
    {
      hide KeyFor;
      if !IsOffered(offers, s) || name == [] || depth == 0 || depth > MAX_QUEUE_DEPTH || !authorized {
        return None;
      }
      var sub := Subscription(nextSubscriptionId, s, name, depth);
      nextSubscriptionId := Increment(nextSubscriptionId);
      var key := MemberKey(s, name);
      var queue := if key in fieldValues then [fieldValues[key]] else [];
      fieldSubscriptions := Emplaced(fieldSubscriptions, sub.id, QueueState(sub, queue));
      return Some(sub);
    }

    method SubscribeTrigger(s: ServiceIdentifier, name: Name, depth: nat, authorized: bool)
      returns (r: Option<Subscription>)
      modifies this
      ensures (State(), r) == TriggerSubscribed(old(State()), s, name, depth, authorized)
    {
      hide KeyFor;
      if !IsOffered(offers, s) || name == [] || depth == 0 || depth > MAX_QUEUE_DEPTH || !authorized {
        return None;
      }
      var sub := Subscription(nextSubscriptionId, s, name, depth);
      nextSubscriptionId := Increment(nextSubscriptionId);
      triggerSubscriptions := Emplaced(triggerSubscriptions, sub.id, QueueState(sub, []));
      return Some(sub);
    }

    method Unsubscribe(id: U64) returns (ok: bool)
      modifies this
      ensures (State(), ok) == Unsubscribed(old(State()), id)
    {
      ok := id in subscriptions || id in fieldSubscriptions || id in triggerSubscriptions;
      subscriptions := subscriptions - {id};
      fieldSubscriptions := fieldSubscriptions - {id};
      triggerSubscriptions := triggerSubscriptions - {id};
    }

    method Publish(sample: EventSample, authorized: bool) returns (r: Option<U64>)
      modifies this
      ensures (State(), r) == Published(old(State()), sample, authorized)
    {
      hide KeyFor, DeliveredToAll;
      if !IsOffered(offers, sample.service) || sample.eventName == [] || sample.payload == [] || !authorized {
        return None;
      }
      var numbered := sample.(sequence := nextSequence);
      nextSequence := Increment(nextSequence);
      subscriptions := DeliverToAll(subscriptions, sample.service, sample.eventName, numbered);
      return Some(numbered.sequence);
    }

    method FireTrigger(a: TriggerActivation, authorized: bool) returns (r: Option<TriggerActivation>)
      modifies this
      ensures (State(), r) == TriggerFired(old(State()), a, authorized)
    {
      hide KeyFor, DeliveredToAll;
      if !IsOffered(offers, a.service) || a.triggerName == [] || !authorized {
        return None;
      }
      var numbered := a.(sequence := nextSequence);
      nextSequence := Increment(nextSequence);
      triggerSubscriptions := DeliverToAll(triggerSubscriptions, a.service, a.triggerName, numbered);
      return Some(numbered);
    }

    method SetField(v: FieldValue, authorized: bool) returns (r: Option<FieldValue>)
      modifies this
      ensures (State(), r) == FieldSet(old(State()), v, authorized)
    {
      hide KeyFor, DeliveredToAll;
      if !IsOffered(offers, v.service) || v.fieldName == [] || v.payload == [] || !authorized {
        return None;
      }
      var numbered := v.(sequence := nextSequence);
      nextSequence := Increment(nextSequence);
      fieldValues := fieldValues[MemberKey(v.service, v.fieldName) := numbered];
      fieldSubscriptions := DeliverToAll(fieldSubscriptions, v.service, v.fieldName, numbered);
      return Some(numbered);
    }

    method GetField(s: ServiceIdentifier, name: Name, authorized: bool) returns (r: Option<FieldValue>)
      ensures r == FieldOf(State(), s, name, authorized)
    {
      hide KeyFor;
      if !IsOffered(offers, s) || name == [] || !authorized || MemberKey(s, name) !in fieldValues {
        return None;
      }
      return Some(fieldValues[MemberKey(s, name)]);
    }

    method Poll(id: U64) returns (r: Option<EventSample>)
      modifies this
      ensures State() == old(State()).(subscriptions := Polled(old(subscriptions), id).0)
      ensures r == Polled(old(subscriptions), id).1
    {
      if id !in subscriptions || subscriptions[id].queue == [] {
        return None;
      }
      var queue := subscriptions[id].queue;
      subscriptions := subscriptions[id := subscriptions[id].(queue := queue[1..])];
      return Some(queue[0]);
    }

    method PollField(id: U64) returns (r: Option<FieldValue>)
      modifies this
      ensures State() == old(State()).(fieldSubscriptions := Polled(old(fieldSubscriptions), id).0)
      ensures r == Polled(old(fieldSubscriptions), id).1
    {
      if id !in fieldSubscriptions || fieldSubscriptions[id].queue == [] {
        return None;
      }
      var queue := fieldSubscriptions[id].queue;
      fieldSubscriptions := fieldSubscriptions[id := fieldSubscriptions[id].(queue := queue[1..])];
      return Some(queue[0]);
    }

    method PollTrigger(id: U64) returns (r: Option<TriggerActivation>)
      modifies this
      ensures State() == old(State()).(triggerSubscriptions := Polled(old(triggerSubscriptions), id).0)
      ensures r == Polled(old(triggerSubscriptions), id).1
    {
      if id !in triggerSubscriptions || triggerSubscriptions[id].queue == [] {
        return None;
      }
      var queue := triggerSubscriptions[id].queue;
      triggerSubscriptions := triggerSubscriptions[id := triggerSubscriptions[id].(queue := queue[1..])];
      return Some(queue[0]);
    }

    // ----- method calls -----

    method CorrelationIsKnown(id: U64) returns (known: bool)
      ensures known == (id in KnownIds(State()))
    {
      var queued := QueuesContain(pendingCalls, (c: MethodCall) => c.correlationId, id);
      if queued || id in inFlight {
        return true;
      }
      known := QueuesContain(pendingResults, (x: MethodResult) => x.correlationId, id);
    }

    /** The allocation loop: it ends, and with a free non-zero id, because fewer ids are known than exist. */
    method AllocateId() returns (id: U64)
      requires CanAllocate(State())
      modifies this`nextCorrelationId
      ensures var n := FirstFreeFrom(old(State()));
        id == Candidate(old(nextCorrelationId), n) && nextCorrelationId == Candidate(old(nextCorrelationId), n + 1)
      ensures id != 0 && id !in KnownIds(old(State()))
    {
      hide KnownIds, IdsLeft;
      ghost var known, start, free := KnownIds(State()), nextCorrelationId, FirstFreeFrom(State());
      id := TakeId();
      ghost var n: nat := 0;
      var taken := CorrelationIsKnown(id);
      while taken
        invariant n <= free && start == old(nextCorrelationId) != 0
        invariant id == Candidate(start, n) && nextCorrelationId == Candidate(start, n + 1)
        invariant taken == (id in known) && KnownIds(State()) == known
        decreases free - n
      {
        id := TakeId();
        n := n + 1;
        taken := CorrelationIsKnown(id);
      }
    }

    /** The next candidate; the counter skips zero when it wraps. */
    method TakeId() returns (id: U64)
      requires nextCorrelationId != 0
      modifies this`nextCorrelationId
      ensures id == old(nextCorrelationId) && KnownIds(State()) == old(KnownIds(State()))
      ensures forall start: U64, n: nat ::
        start != 0 && id == Candidate(start, n) ==> nextCorrelationId == Candidate(start, n + 1)
      ensures nextCorrelationId == Candidate(id, 1) && id == Candidate(id, 0)
    {
      hide Candidate;
      id := nextCorrelationId;
      nextCorrelationId := Increment(nextCorrelationId);
      if nextCorrelationId == 0 {
        nextCorrelationId := 1;
      }
      FirstCandidate(id);
      forall start: U64, n: nat | start != 0 && id == Candidate(start, n)
        ensures nextCorrelationId == Candidate(start, n + 1)
      {
        NextCandidate(start, n);
      }
    }

    method SubmitMethodCall(c: MethodCall, authorized: bool) returns (r: Option<MethodCall>)
      requires c.correlationId == 0 ==> CanAllocate(State())
      modifies this
      ensures (State(), r) == Submitted(old(State()), c, authorized)
    {
      hide KeyFor, KnownIds, IdsLeft, Candidate;
      if !IsOffered(offers, c.service) || c.methodName == [] || !authorized {
        return None;
      }
      var call := c;
      if c.correlationId == 0 {
        var id := AllocateId();
        call := c.(correlationId := id);
      } else {
        var known := CorrelationIsKnown(c.correlationId);
        if known {
          return None;
        }
      }
      pendingCalls := Pushed(pendingCalls, MemberKey(c.service, c.methodName), call);
      return Some(call);
    }

    method SubmitMethodCallFuture(c: MethodCall, authorized: bool) returns (r: Option<FutureState>)
      requires c.correlationId == 0 ==> CanAllocate(State())
      modifies this
      ensures (State(), r) == FutureSubmitted(old(State()), c, authorized)
    {
      hide Submitted, CanAllocate;
      if !c.expectsResponse {
        return None;
      }
      var call := SubmitMethodCall(c, authorized);
      if call.None? {
        return None;
      }
      var future := FutureState(call.value, nextFuture);
      nextFuture := nextFuture + 1;
      futures := Emplaced(futures, call.value.correlationId, future);
      return Some(future);
    }

    method TakeMethodCall(s: ServiceIdentifier, name: Name) returns (r: Option<MethodCall>)
      modifies this
      ensures (State(), r) == CallTaken(old(State()), s, name)
    {
      hide KeyFor;
      if !IsOffered(offers, s) || name == [] {
        return None;
      }
      var key := MemberKey(s, name);
      if key !in pendingCalls || pendingCalls[key] == [] {
        return None;
      }
      var call := pendingCalls[key][0];
      var rest := pendingCalls[key][1..];
      pendingCalls := if rest == [] then pendingCalls - {key} else pendingCalls[key := rest];
      if call.expectsResponse {
        inFlight := inFlight[call.correlationId := call];
      }
      return Some(call);
    }

    method CompleteMethodCall(x: MethodResult, authorized: bool) returns (r: Option<MethodResult>)
      modifies this
      ensures (State(), r) == CallCompleted(old(State()), x, authorized)
    {
      hide KeyFor;
      var id := x.correlationId;
      if !IsOffered(offers, x.service) || x.methodName == [] || id == 0 || !authorized {
        return None;
      }
      if id !in inFlight || inFlight[id].service != x.service || inFlight[id].methodName != x.methodName {
        return None;
      }
      inFlight := inFlight - {id};
      pendingResults := Pushed(pendingResults, MemberKey(x.service, x.methodName), x);
      if id in futures {
        settled := settled[futures[id].future := Completed(x)];
      }
      futures := futures - {id};
      return Some(x);
    }

    method TakeMethodResult(s: ServiceIdentifier, name: Name, id: U64) returns (r: Option<MethodResult>)
      modifies this
      ensures (State(), r) == ResultTaken(old(State()), s, name, id)
    {
      hide KeyFor;
      if s.interfaceId == 0 || s.instanceId == 0 || name == [] || id == 0 {
        return None;
      }
      var key := MemberKey(s, name);
      if key !in pendingResults {
        return None;
      }
      var queue := pendingResults[key];
      var i := FindResult(queue, id);
      if i == |queue| {
        return None;
      }
      var rest := queue[..i] + queue[i + 1..];
      pendingResults := if rest == [] then pendingResults - {key} else pendingResults[key := rest];
      return Some(queue[i]);
    }
  }

  function FirstFreeFrom(r: Registry): nat
    requires CanAllocate(r)
  {
    SomeIdIsFree(KnownIds(r), r.nextCorrelationId);
    FirstFree(KnownIds(r), r.nextCorrelationId, 0)
  }

  // ----- loops over the maps -----

  method ErasePrefix<V>(m: map<Name, V>, prefix: Name) returns (kept: map<Name, V>)
    ensures kept == WithoutPrefix(m, prefix)
  {
    kept := map[];
    var keys := m.Keys;
    while keys != {}
      invariant keys <= m.Keys
      invariant kept == map k | k in m && k !in keys && !StartsWith(k, prefix) :: m[k]
      decreases keys
    {
      var k :| k in keys;
      if !StartsWith(k, prefix) {
        kept := kept[k := m[k]];
      }
      keys := keys - {k};
    }
  }

  method EraseCalls(m: map<U64, MethodCall>, s: ServiceIdentifier) returns (kept: map<U64, MethodCall>)
    ensures kept == CallsExcept(m, s)
  {
    kept := map[];
    var keys := m.Keys;
    while keys != {}
      invariant keys <= m.Keys
      invariant kept == map k | k in m && k !in keys && m[k].service != s :: m[k]
      decreases keys
    {
      var k :| k in keys;
      if m[k].service != s {
        kept := kept[k := m[k]];
      }
      keys := keys - {k};
    }
  }

  function FuturesAmong(m: map<U64, FutureState>, keys: set<U64>, s: ServiceIdentifier): set<nat> {
    set k | k in keys && k in m && m[k].call.service == s :: m[k].future
  }

  lemma OneMoreKey(m: map<U64, FutureState>, keys: set<U64>, k: U64, s: ServiceIdentifier)
    requires k in m
    ensures FuturesAmong(m, keys + {k}, s)
      == FuturesAmong(m, keys, s) + if m[k].call.service == s then {m[k].future} else {}
  {
    var f := m[k].future;
    if m[k].call.service == s {
      assert k in keys + {k};
      assert f in FuturesAmong(m, keys + {k}, s);
    }
    forall x | x in FuturesAmong(m, keys, s)
      ensures x in FuturesAmong(m, keys + {k}, s)
    {
      var j :| j in keys && j in m && m[j].call.service == s && m[j].future == x;
      assert j in keys + {k};
    }
  }

  method CancelFutures(m: map<U64, FutureState>, s: ServiceIdentifier, settled: map<nat, Outcome>)
    returns (kept: map<U64, FutureState>, outcomes: map<nat, Outcome>)
    ensures kept == FuturesExcept(m, s)
    ensures outcomes == settled + AllCancelled(FuturesOf(m, s))
  {
    hide FuturesAmong;
    kept, outcomes := map[], settled;
    var keys := m.Keys;
    NoKeys(m, s);
    while keys != {}
      invariant keys <= m.Keys
      invariant kept == map k | k in m && k !in keys && m[k].call.service != s :: m[k]
      invariant outcomes == settled + AllCancelled(FuturesAmong(m, m.Keys - keys, s))
      decreases keys
    {
      var k :| k in keys;
      OneMoreKey(m, m.Keys - keys, k, s);
      assert m.Keys - (keys - {k}) == m.Keys - keys + {k};
      if m[k].call.service == s {
        outcomes := outcomes[m[k].future := Cancelled];
      } else {
        kept := kept[k := m[k]];
      }
      keys := keys - {k};
    }
    AllKeys(m, s);
    assert m.Keys - {} == m.Keys;
  }

  lemma NoKeys(m: map<U64, FutureState>, s: ServiceIdentifier)
    ensures FuturesAmong(m, m.Keys - m.Keys, s) == {}
  {
  }

  lemma AllKeys(m: map<U64, FutureState>, s: ServiceIdentifier)
    ensures FuturesAmong(m, m.Keys, s) == FuturesOf(m, s)
  {
  }

  method EraseQueues<T>(m: map<U64, QueueState<T>>, s: ServiceIdentifier) returns (kept: map<U64, QueueState<T>>)
    ensures kept == QueuesExcept(m, s)
  {
    kept := map[];
    var keys := m.Keys;
    while keys != {}
      invariant keys <= m.Keys
      invariant kept == map k | k in m && k !in keys && m[k].subscription.service != s :: m[k]
      decreases keys
    {
      var k :| k in keys;
      if m[k].subscription.service != s {
        kept := kept[k := m[k]];
      }
      keys := keys - {k};
    }
  }

  method DeliverToAll<T>(m: map<U64, QueueState<T>>, s: ServiceIdentifier, name: Name, sample: T)
    returns (r: map<U64, QueueState<T>>)
    ensures r == DeliveredToAll(m, s, name, sample)
  {
    r := m;
    var keys := m.Keys;
    while keys != {}
      invariant keys <= m.Keys
      invariant r == map k | k in m :: if k !in keys && Matches(m[k], s, name) then Delivered(m[k], sample) else m[k]
      decreases keys
    {
      var k :| k in keys;
      if Matches(m[k], s, name) {
        var delivered := Deliver(m[k], sample);
        r := r[k := delivered];
      }
      keys := keys - {k};
    }
  }

  method QueuesContain<T>(queues: map<Name, seq<T>>, idOf: T -> U64, id: U64) returns (found: bool)
    ensures found == exists k, i :: k in queues && 0 <= i < |queues[k]| && idOf(queues[k][i]) == id
  {
    var keys := queues.Keys;
    while keys != {}
      invariant keys <= queues.Keys
      invariant forall k, i :: k in queues && k !in keys && 0 <= i < |queues[k]| ==> idOf(queues[k][i]) != id
      decreases keys
    {
      var k :| k in keys;
      var queue := queues[k];
      for i := 0 to |queue|
        invariant forall j :: 0 <= j < i ==> idOf(queue[j]) != id
      {
        if idOf(queue[i]) == id {
          return true;
        }
      }
      keys := keys - {k};
    }
    return false;
  }
}
