/**
 The service registry: offers, subscriptions, fields and the method-call lifecycle. Whether the access
 policy allows an operation is a parameter of the operation.
 */
module ServiceRegistry {
  import opened Bytes
  import opened ServiceTypes
  import opened ServiceKeys
  import opened SubscriptionQueue

  const MAX_QUEUE_DEPTH: nat := 64

  datatype Offer = Offer(
    service: ServiceIdentifier,
    processIdentity: Name,
    machineIdentity: Name,
    address: Name,
    ttlMs: U32,
    offered: bool,
    healthy: bool)

  datatype MethodCall = MethodCall(
    service: ServiceIdentifier, methodName: Name, payload: seq<Byte>, correlationId: U64, expectsResponse: bool)

  datatype MethodResult = MethodResult(
    service: ServiceIdentifier, methodName: Name, payload: seq<Byte>, correlationId: U64,
    applicationError: bool, errorDomain: Name, errorCode: U32)

  datatype FieldValue = FieldValue(service: ServiceIdentifier, fieldName: Name, payload: seq<Byte>, sequence: U64)

  datatype TriggerActivation = TriggerActivation(service: ServiceIdentifier, triggerName: Name, sequence: U64)

  datatype Outcome = Completed(result: MethodResult) | Cancelled

  /** A stored promise: the call and the identity of the future handed out for it. */
  datatype FutureState = FutureState(call: MethodCall, future: nat)

  /** `settled` holds the outcome of every future that has one; `nextFuture` is the number handed out. */
  datatype Registry = Registry(
    offers: map<Name, Offer>,
    subscriptions: map<U64, QueueState<EventSample>>,
    fieldSubscriptions: map<U64, QueueState<FieldValue>>,
    triggerSubscriptions: map<U64, QueueState<TriggerActivation>>,
    pendingCalls: map<Name, seq<MethodCall>>,
    inFlight: map<U64, MethodCall>,
    pendingResults: map<Name, seq<MethodResult>>,
    futures: map<U64, FutureState>,
    fieldValues: map<Name, FieldValue>,
    nextSubscriptionId: U64,
    nextSequence: U64,
    nextCorrelationId: U64,
    settled: map<nat, Outcome>,
    nextFuture: nat)

  function Empty(): Registry {
    Registry(map[], map[], map[], map[], map[], map[], map[], map[], map[], 1, 1, 1, map[], 0)
  }

  // ----- offers -----

  predicate ValidOffer(o: Offer) {
    && o.service.interfaceId != 0 && o.service.instanceId != 0 && o.service.majorVersion != 0
    && o.processIdentity != [] && o.machineIdentity != [] && o.address != [] && o.ttlMs != 0
  }

  predicate IsOffered(offers: map<Name, Offer>, s: ServiceIdentifier) {
    KeyFor(s) in offers && offers[KeyFor(s)].offered
  }

  function Offered(r: Registry, o: Offer, authorized: bool): (Registry, bool)
  {
    if !ValidOffer(o) || !authorized then (r, false)
    else (r.(offers := r.offers[KeyFor(o.service) := o.(offered := true)]), true)
  }

  // ----- what the stop of a service erases -----

  function WithoutPrefix<V>(m: map<Name, V>, prefix: Name): map<Name, V> {
    map k | k in m && !StartsWith(k, prefix) :: m[k]
  }

  function CallsExcept(m: map<U64, MethodCall>, s: ServiceIdentifier): map<U64, MethodCall> {
    map k | k in m && m[k].service != s :: m[k]
  }

  function FuturesExcept(m: map<U64, FutureState>, s: ServiceIdentifier): map<U64, FutureState> {
    map k | k in m && m[k].call.service != s :: m[k]
  }

  function QueuesExcept<T>(m: map<U64, QueueState<T>>, s: ServiceIdentifier): map<U64, QueueState<T>> {
    map k | k in m && m[k].subscription.service != s :: m[k]
  }

  /** The futures handed out for the service's calls. */
  function FuturesOf(m: map<U64, FutureState>, s: ServiceIdentifier): set<nat> {
    set k | k in m && m[k].call.service == s :: m[k].future
  }

  function AllCancelled(futures: set<nat>): map<nat, Outcome> {
    map f | f in futures :: Cancelled
  }

  function Erased(r: Registry, s: ServiceIdentifier): Registry {
    r.(pendingCalls := WithoutPrefix(r.pendingCalls, KeyFor(s) + COLON),
       pendingResults := WithoutPrefix(r.pendingResults, KeyFor(s) + COLON),
       inFlight := CallsExcept(r.inFlight, s),
       futures := FuturesExcept(r.futures, s),
       settled := r.settled + AllCancelled(FuturesOf(r.futures, s)),
       fieldValues := WithoutPrefix(r.fieldValues, KeyFor(s) + COLON),
       fieldSubscriptions := QueuesExcept(r.fieldSubscriptions, s),
       triggerSubscriptions := QueuesExcept(r.triggerSubscriptions, s))
  }

  /** Stopping an offer, or invalidating its endpoint, which also marks it as failed. */
  function Stopped(r: Registry, s: ServiceIdentifier, failed: bool): (Registry, bool) {
    if KeyFor(s) !in r.offers then (r, false)
    else
      var o := r.offers[KeyFor(s)];
      (Erased(
         r.(offers := r.offers[KeyFor(s) := o.(offered := false, healthy := o.healthy && !failed)]), s),
       true)
  }

  // ----- subscriptions -----

  function NewSubscription(r: Registry, s: ServiceIdentifier, name: Name, depth: nat, authorized: bool)
    : Option<Subscription>
  {
    if IsOffered(r.offers, s) && name != [] && 0 < depth <= MAX_QUEUE_DEPTH && authorized then
      Some(Subscription(r.nextSubscriptionId, s, name, depth))
    else None
  }

  /** `emplace`: an id already present keeps its entry. */
  function Emplaced<V>(m: map<U64, V>, k: U64, v: V): map<U64, V> {
    if k in m then m else m[k := v]
  }

  function EventSubscribed(r: Registry, s: ServiceIdentifier, name: Name, depth: nat, authorized: bool)
    : (Registry, Option<Subscription>)
  {
    var sub := NewSubscription(r, s, name, depth, authorized);
    if sub.None? then (r, None)
    else
      (r.(nextSubscriptionId := Increment(r.nextSubscriptionId),
          subscriptions := Emplaced(r.subscriptions, sub.value.id, QueueState(sub.value, []))),
       sub)
  }

  /** The stored value of a field, if there is one. */
  function Seed(r: Registry, s: ServiceIdentifier, name: Name): seq<FieldValue> {
    if MemberKey(s, name) in r.fieldValues then [r.fieldValues[MemberKey(s, name)]] else []
  }

  function FieldSubscribed(r: Registry, s: ServiceIdentifier, name: Name, depth: nat, authorized: bool)
    : (Registry, Option<Subscription>)
  {
    var sub := NewSubscription(r, s, name, depth, authorized);
    if sub.None? then (r, None)
    else
      (r.(nextSubscriptionId := Increment(r.nextSubscriptionId),
          fieldSubscriptions :=
            Emplaced(r.fieldSubscriptions, sub.value.id, QueueState(sub.value, Seed(r, s, name)))),
       sub)
  }

  function TriggerSubscribed(r: Registry, s: ServiceIdentifier, name: Name, depth: nat, authorized: bool)
    : (Registry, Option<Subscription>)
  {
    var sub := NewSubscription(r, s, name, depth, authorized);
    if sub.None? then (r, None)
    else
      (r.(nextSubscriptionId := Increment(r.nextSubscriptionId),
          triggerSubscriptions := Emplaced(r.triggerSubscriptions, sub.value.id, QueueState(sub.value, []))),
       sub)
  }

  function WithoutId<V>(m: map<U64, V>, id: U64): map<U64, V> {
    m - {id}
  }

  function Unsubscribed(r: Registry, id: U64): (Registry, bool)
  {
    (r.(subscriptions := WithoutId(r.subscriptions, id),
        fieldSubscriptions := WithoutId(r.fieldSubscriptions, id),
        triggerSubscriptions := WithoutId(r.triggerSubscriptions, id)),
     id in r.subscriptions || id in r.fieldSubscriptions || id in r.triggerSubscriptions)
  }

  /** The sample put into the queue of every subscription it matches. */
  function DeliveredToAll<T>(m: map<U64, QueueState<T>>, s: ServiceIdentifier, name: Name, sample: T)
    : map<U64, QueueState<T>>
  {
    map k | k in m :: if Matches(m[k], s, name) then Delivered(m[k], sample) else m[k]
  }

  function Published(r: Registry, sample: EventSample, authorized: bool): (Registry, Option<U64>)
  {
    if !IsOffered(r.offers, sample.service) || sample.eventName == [] || sample.payload == [] || !authorized then
      (r, None)
    else
      var numbered := sample.(sequence := r.nextSequence);
      (r.(nextSequence := Increment(r.nextSequence),
          subscriptions := DeliveredToAll(r.subscriptions, sample.service, sample.eventName, numbered)),
       Some(r.nextSequence))
  }

  function TriggerFired(r: Registry, a: TriggerActivation, authorized: bool)
    : (Registry, Option<TriggerActivation>)
  {
    if !IsOffered(r.offers, a.service) || a.triggerName == [] || !authorized then (r, None)
    else
      var numbered := a.(sequence := r.nextSequence);
      (r.(nextSequence := Increment(r.nextSequence),
          triggerSubscriptions := DeliveredToAll(r.triggerSubscriptions, a.service, a.triggerName, numbered)),
       Some(numbered))
  }

  function FieldSet(r: Registry, v: FieldValue, authorized: bool): (Registry, Option<FieldValue>)
  {
    if !IsOffered(r.offers, v.service) || v.fieldName == [] || v.payload == [] || !authorized then (r, None)
    else
      var numbered := v.(sequence := r.nextSequence);
      (r.(nextSequence := Increment(r.nextSequence),
          fieldValues := r.fieldValues[MemberKey(v.service, v.fieldName) := numbered],
          fieldSubscriptions := DeliveredToAll(r.fieldSubscriptions, v.service, v.fieldName, numbered)),
       Some(numbered))
  }

  function FieldOf(r: Registry, s: ServiceIdentifier, name: Name, authorized: bool): Option<FieldValue> {
    if IsOffered(r.offers, s) && name != [] && authorized && MemberKey(s, name) in r.fieldValues then
      Some(r.fieldValues[MemberKey(s, name)])
    else None
  }

  /** The oldest entry of a queue, taken out. */
  function Polled<T>(m: map<U64, QueueState<T>>, id: U64): (map<U64, QueueState<T>>, Option<T>) {
    if id !in m || m[id].queue == [] then (m, None)
    else (m[id := m[id].(queue := m[id].queue[1..])], Some(m[id].queue[0]))
  }

  // ----- correlation ids -----

  function CallIds(m: map<Name, seq<MethodCall>>): set<U64> {
    set k, i | k in m && 0 <= i < |m[k]| :: m[k][i].correlationId
  }

  function ResultIds(m: map<Name, seq<MethodResult>>): set<U64> {
    set k, i | k in m && 0 <= i < |m[k]| :: m[k][i].correlationId
  }

  /** The ids of queued calls, in-flight calls and queued results. */
  function KnownIds(r: Registry): set<U64> {
    CallIds(r.pendingCalls) + r.inFlight.Keys + ResultIds(r.pendingResults)
  }

  /** The id counter after `n` increments that skip zero. */
  function Candidate(next: U64, n: nat): (id: U64)
    requires next != 0
    ensures id != 0
  {
    (next + n - 1) % (U64_MODULUS - 1) + 1
  }

  lemma FirstCandidate(next: U64)
    requires next != 0
    ensures Candidate(next, 0) == next
    ensures Candidate(next, 1) == if Increment(next) == 0 then 1 else Increment(next)
  {
  }

  lemma NextCandidate(next: U64, n: nat)
    requires next != 0
    ensures var id := Candidate(next, n);
      Candidate(next, n + 1) == if Increment(id) == 0 then 1 else Increment(id)
  {
  }

  /** There is an id left to give out. */
  predicate IdsLeft(r: Registry) {
    |KnownIds(r)| < U64_MODULUS - 1
  }

  /** How many candidates, from `n` on, are taken before the first free one. */
  function FirstFree(known: set<U64>, next: U64, n: nat): (m: nat)
    requires next != 0
    requires exists k: nat :: n <= k < U64_MODULUS - 1 && Candidate(next, k) !in known
    ensures n <= m < U64_MODULUS - 1 && Candidate(next, m) !in known
    ensures forall k: nat :: n <= k < m ==> Candidate(next, k) in known
    decreases U64_MODULUS - n
  {
    if Candidate(next, n) !in known then n else FirstFree(known, next, n + 1)
  }

  // ----- why a free id is always found -----

  function Tried(next: U64, n: nat): set<U64>
    requires next != 0
  {
    set k: nat | k < n :: Candidate(next, k)
  }

  lemma CandidatesAreDistinct(next: U64, j: nat, k: nat)
    requires next != 0 && j < k < U64_MODULUS - 1
    ensures Candidate(next, j) != Candidate(next, k)
  {
  }

  lemma {:induction false} TriedCount(next: U64, n: nat)
    requires next != 0 && n <= U64_MODULUS - 1
    ensures |Tried(next, n)| == n
    decreases n
  {
    hide Candidate;
    if n > 0 {
      TriedCount(next, n - 1);
      assert Tried(next, n) == Tried(next, n - 1) + {Candidate(next, n - 1)};
      forall k: nat | k < n - 1
        ensures Candidate(next, k) != Candidate(next, n - 1)
      {
        CandidatesAreDistinct(next, k, n - 1);
      }
    }
  }

  lemma SubsetIsSmaller(a: set<U64>, b: set<U64>)
    requires a <= b
    ensures |a| <= |b|
  {
    assert |b| == |a| + |b - a| by {
      assert b == a + (b - a);
    }
  }

  /** With fewer known ids than candidates, some candidate is free. */
  lemma SomeIdIsFree(known: set<U64>, next: U64)
    requires next != 0 && |known| < U64_MODULUS - 1
    ensures exists k: nat :: k < U64_MODULUS - 1 && Candidate(next, k) !in known
  {
    hide Candidate;
    TriedCount(next, U64_MODULUS - 1);
    if forall k: nat :: k < U64_MODULUS - 1 ==> Candidate(next, k) in known {
      assert Tried(next, U64_MODULUS - 1) <= known;
      SubsetIsSmaller(Tried(next, U64_MODULUS - 1), known);
    }
  }

  /** The loop, which tries candidate after candidate, meets a free one exactly if some non-zero id is free. */
  lemma LoopEndsIfIdsAreLeft(known: set<U64>, next: U64)
    requires next != 0
    ensures (exists n: nat :: Candidate(next, n) !in known) <==> exists id: U64 :: id != 0 && id !in known
  {
    hide Candidate;
    if id: U64 :| id != 0 && id !in known {
      EveryIdIsTried(next, id);
    }
  }

  lemma EveryIdIsTried(next: U64, id: U64)
    requires next != 0 && id != 0
    ensures exists n: nat :: Candidate(next, n) == id
  {
    var n: nat := if next <= id then id - next else id + (U64_MODULUS - 1) - next;
    assert Candidate(next, n) == id;
  }

  // ----- the method-call lifecycle -----

  /** What the registry demands of itself before it can hand out an id. */
  predicate CanAllocate(r: Registry) {
    r.nextCorrelationId != 0 && IdsLeft(r)
  }

  function Pushed<T>(m: map<Name, seq<T>>, key: Name, x: T): map<Name, seq<T>> {
    m[key := (if key in m then m[key] else []) + [x]]
  }

  /** The call under its correlation id, given or newly allocated, and the id counter afterwards. */
  function Identified(r: Registry, c: MethodCall): Option<(MethodCall, U64)>
    requires c.correlationId == 0 ==> CanAllocate(r)
  {
    if c.correlationId == 0 then
      SomeIdIsFree(KnownIds(r), r.nextCorrelationId);
      var n := FirstFree(KnownIds(r), r.nextCorrelationId, 0);
      Some((c.(correlationId := Candidate(r.nextCorrelationId, n)), Candidate(r.nextCorrelationId, n + 1)))
    else if c.correlationId in KnownIds(r) then None
    else Some((c, r.nextCorrelationId))
  }

  function Submitted(r: Registry, c: MethodCall, authorized: bool): (Registry, Option<MethodCall>)
    requires c.correlationId == 0 ==> CanAllocate(r)
  {
    if !IsOffered(r.offers, c.service) || c.methodName == [] || !authorized then (r, None)
    else
      var identified := Identified(r, c);
      if identified.None? then (r, None)
      else
        var (call, next) := identified.value;
        (r.(pendingCalls := Pushed(r.pendingCalls, MemberKey(c.service, c.methodName), call),
            nextCorrelationId := next),
         Some(call))
  }

  function FutureSubmitted(r: Registry, c: MethodCall, authorized: bool): (Registry, Option<FutureState>)
    requires c.correlationId == 0 ==> CanAllocate(r)
  {
    if !c.expectsResponse then (r, None)
    else
      var (r', call) := Submitted(r, c, authorized);
      if call.None? then (r', None)
      else
        var future := FutureState(call.value, r'.nextFuture);
        (r'.(futures := Emplaced(r'.futures, call.value.correlationId, future), nextFuture := r'.nextFuture + 1),
         Some(future))
  }

  /** The queue without its first entry; a queue that becomes empty is erased. */
  function Popped<T>(m: map<Name, seq<T>>, key: Name): map<Name, seq<T>>
    requires key in m && m[key] != []
  {
    if |m[key]| == 1 then m - {key} else m[key := m[key][1..]]
  }

  function CallTaken(r: Registry, s: ServiceIdentifier, name: Name): (Registry, Option<MethodCall>)
  {
    var key := MemberKey(s, name);
    if !IsOffered(r.offers, s) || name == [] || key !in r.pendingCalls || r.pendingCalls[key] == [] then (r, None)
    else
      var call := r.pendingCalls[key][0];
      (r.(pendingCalls := Popped(r.pendingCalls, key),
          inFlight := if call.expectsResponse then r.inFlight[call.correlationId := call] else r.inFlight),
       Some(call))
  }

  function CallCompleted(r: Registry, x: MethodResult, authorized: bool): (Registry, Option<MethodResult>) {
    var id := x.correlationId;
    if !IsOffered(r.offers, x.service) || x.methodName == [] || id == 0 || !authorized then (r, None)
    else if id !in r.inFlight || r.inFlight[id].service != x.service || r.inFlight[id].methodName != x.methodName then
      (r, None)
    else
      (r.(inFlight := r.inFlight - {id},
          pendingResults := Pushed(r.pendingResults, MemberKey(x.service, x.methodName), x),
          settled := if id in r.futures then r.settled[r.futures[id].future := Completed(x)] else r.settled,
          futures := r.futures - {id}),
       Some(x))
  }

  /** The index of the first result with the id, or the length of the queue if there is none. */
  function FindResult(queue: seq<MethodResult>, id: U64): (i: nat)
    ensures i <= |queue| && (i < |queue| ==> queue[i].correlationId == id)
    ensures forall j :: 0 <= j < i ==> queue[j].correlationId != id
  {
    if queue == [] || queue[0].correlationId == id then 0 else 1 + FindResult(queue[1..], id)
  }

  function RemovedAt<T>(m: map<Name, seq<T>>, key: Name, i: nat): map<Name, seq<T>>
    requires key in m && i < |m[key]|
  {
    if |m[key]| == 1 then m - {key} else m[key := m[key][..i] + m[key][i + 1..]]
  }

  function ResultTaken(r: Registry, s: ServiceIdentifier, name: Name, id: U64)
    : (Registry, Option<MethodResult>)
  {
    var key := MemberKey(s, name);
    if s.interfaceId == 0 || s.instanceId == 0 || name == [] || id == 0 || key !in r.pendingResults then (r, None)
    else
      var i := FindResult(r.pendingResults[key], id);
      if i == |r.pendingResults[key]| then (r, None)
      else (r.(pendingResults := RemovedAt(r.pendingResults, key, i)), Some(r.pendingResults[key][i]))
  }
}
