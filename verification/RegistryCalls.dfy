/** What holds of calls, results and futures in every reachable state of the registry. */
module RegistryCalls {
  import opened Bytes
  import opened ServiceTypes
  import opened ServiceKeys
  import opened SubscriptionQueue
  import opened ServiceRegistry

  // ----- where a correlation id is -----

  datatype Place = Waiting(key: Name, index: nat) | Flying | Finished(key: Name, index: nat)

  ghost predicate At(r: Registry, id: U64, p: Place) {
    match p
    case Waiting(k, i) =>
      k in r.pendingCalls && i < |r.pendingCalls[k]| && r.pendingCalls[k][i].correlationId == id
    case Flying => id in r.inFlight
    case Finished(k, i) =>
      k in r.pendingResults && i < |r.pendingResults[k]| && r.pendingResults[k][i].correlationId == id
  }

  /** Every correlation id is in at most one place. */
  ghost predicate UniquePlaces(r: Registry) {
    forall id: U64, p: Place, q: Place :: At(r, id, p) && At(r, id, q) ==> p == q
  }

  lemma KnownMeansSomewhere(r: Registry, id: U64, p: Place)
    requires At(r, id, p)
    ensures id in KnownIds(r)
  {
  }

  // ----- what every entry looks like -----

  ghost predicate CallsOk(r: Registry) {
    && (forall k <- r.pendingCalls :: r.pendingCalls[k] != [])
    && (forall k, i :: k in r.pendingCalls && 0 <= i < |r.pendingCalls[k]| ==>
          var c := r.pendingCalls[k][i];
          k == MemberKey(c.service, c.methodName) && c.correlationId != 0 && IsOffered(r.offers, c.service))
    && forall id <- r.inFlight ::
         var c := r.inFlight[id];
         c.correlationId == id != 0 && c.expectsResponse && IsOffered(r.offers, c.service)
  }

  ghost predicate ResultsOk(r: Registry) {
    forall k, i :: k in r.pendingResults && 0 <= i < |r.pendingResults[k]| ==>
      var x := r.pendingResults[k][i];
      k == MemberKey(x.service, x.methodName) && x.correlationId != 0 && IsOffered(r.offers, x.service)
  }

  /** The call is queued under its key, or in flight under its id. */
  ghost predicate Active(r: Registry, c: MethodCall) {
    (c.correlationId in r.inFlight && r.inFlight[c.correlationId] == c) || InQueue(r.pendingCalls, c)
  }

  ghost predicate InQueue(m: map<Name, seq<MethodCall>>, c: MethodCall) {
    MemberKey(c.service, c.methodName) in m && c in m[MemberKey(c.service, c.methodName)]
  }

  ghost predicate FuturesOk(r: Registry) {
    && (forall id <- r.futures ::
          var f := r.futures[id];
          && f.call.correlationId == id && f.call.expectsResponse && Active(r, f.call)
          && f.future < r.nextFuture && f.future !in r.settled)
    && (forall a, b :: a in r.futures && b in r.futures && r.futures[a].future == r.futures[b].future ==> a == b)
    && (forall t <- r.settled :: t < r.nextFuture)
    && forall t: nat :: t < r.nextFuture ==> t in r.settled || Unresolved(r, t)
  }

  /** The future has been handed out and has no outcome yet. */
  ghost predicate Unresolved(r: Registry, t: nat) {
    exists id :: id in r.futures && r.futures[id].future == t
  }

  /** Field values and field and trigger subscriptions belong to offered services. */
  ghost predicate FieldsOk(r: Registry) {
    && (forall k <- r.fieldValues ::
          var v := r.fieldValues[k]; k == MemberKey(v.service, v.fieldName) && IsOffered(r.offers, v.service))
    && AllOffered(r.offers, r.fieldSubscriptions)
    && AllOffered(r.offers, r.triggerSubscriptions)
  }

  ghost predicate AllOffered<T>(offers: map<Name, Offer>, m: map<U64, QueueState<T>>) {
    forall id <- m :: IsOffered(offers, m[id].subscription.service)
  }

  ghost predicate Invariant(r: Registry) {
    && r.nextCorrelationId != 0
    && UniquePlaces(r) && CallsOk(r) && ResultsOk(r) && FuturesOk(r) && FieldsOk(r)
  }

  // ----- moving ids about -----

  /** If every place in the new state comes from its own place in the old one, ids stay unique. */
  lemma PlacesMove(r: Registry, r': Registry, back: (U64, Place) -> Place)
    requires UniquePlaces(r)
    requires forall id: U64, p: Place :: At(r', id, p) ==> At(r, id, back(id, p))
    requires forall id: U64, p: Place, q: Place ::
      At(r', id, p) && At(r', id, q) && back(id, p) == back(id, q) ==> p == q
    ensures UniquePlaces(r')
  {
    hide At;
    forall id: U64, p: Place, q: Place | At(r', id, p) && At(r', id, q)
      ensures p == q
    {
      assert At(r, id, back(id, p)) && At(r, id, back(id, q));
    }
  }

  lemma SubmitKeepsUnique(r: Registry, key: Name, c: MethodCall, r': Registry)
    requires UniquePlaces(r) && c.correlationId !in KnownIds(r)
    requires r'.pendingCalls == Pushed(r.pendingCalls, key, c)
    requires r'.inFlight == r.inFlight && r'.pendingResults == r.pendingResults
    ensures UniquePlaces(r')
  {
    hide KnownIds;
    var n := if key in r.pendingCalls then |r.pendingCalls[key]| else 0;
    forall id: U64, p: Place | At(r', id, p)
      ensures if p == Waiting(key, n) then id == c.correlationId else At(r, id, p)
    {
    }
    forall id: U64, p: Place, q: Place | At(r', id, p) && At(r', id, q)
      ensures p == q
    {
      if p != Waiting(key, n) {
        KnownMeansSomewhere(r, id, p);
      }
      if q != Waiting(key, n) {
        KnownMeansSomewhere(r, id, q);
      }
    }
  }

  lemma TakeKeepsUnique(r: Registry, key: Name, r': Registry)
    requires UniquePlaces(r) && key in r.pendingCalls && r.pendingCalls[key] != []
    requires r'.pendingCalls == Popped(r.pendingCalls, key) && r'.pendingResults == r.pendingResults
    requires var c := r.pendingCalls[key][0];
      r'.inFlight == r.inFlight || r'.inFlight == r.inFlight[c.correlationId := c]
    ensures UniquePlaces(r')
  {
    var taken := r.pendingCalls[key][0].correlationId;
    assert At(r, taken, Waiting(key, 0));
    var back := (id: U64, p: Place) =>
      match p
      case Waiting(k, i) => if k == key then Waiting(k, i + 1) else p
      case Flying => if id == taken then Waiting(key, 0) else p
      case Finished(_, _) => p;
    PlacesMove(r, r', back);
  }

  lemma CompleteKeepsUnique(r: Registry, key: Name, x: MethodResult, r': Registry)
    requires UniquePlaces(r) && x.correlationId in r.inFlight
    requires r'.inFlight == r.inFlight - {x.correlationId} && r'.pendingCalls == r.pendingCalls
    requires r'.pendingResults == Pushed(r.pendingResults, key, x)
    ensures UniquePlaces(r')
  {
    var n := if key in r.pendingResults then |r.pendingResults[key]| else 0;
    var back := (id: U64, p: Place) => if p == Finished(key, n) then Flying else p;
    PlacesMove(r, r', back);
  }

  lemma TakeResultKeepsUnique(r: Registry, key: Name, i: nat, r': Registry)
    requires UniquePlaces(r) && key in r.pendingResults && i < |r.pendingResults[key]|
    requires r'.inFlight == r.inFlight && r'.pendingCalls == r.pendingCalls
    requires r'.pendingResults == RemovedAt(r.pendingResults, key, i)
    ensures UniquePlaces(r')
  {
    var back := (id: U64, p: Place) =>
      if p.Finished? && p.key == key && p.index >= i then Finished(key, p.index + 1) else p;
    PlacesMove(r, r', back);
  }

  lemma EraseKeepsUnique(r: Registry, r': Registry)
    requires UniquePlaces(r)
    requires forall k :: k in r'.pendingCalls ==> k in r.pendingCalls && r'.pendingCalls[k] == r.pendingCalls[k]
    requires forall k :: k in r'.pendingResults ==> k in r.pendingResults && r'.pendingResults[k] == r.pendingResults[k]
    requires r'.inFlight.Keys <= r.inFlight.Keys
    ensures UniquePlaces(r')
  {
    PlacesMove(r, r', (id: U64, p: Place) => p);
  }

  // ----- submitting -----

  lemma PushedQueue<T>(m: map<Name, seq<T>>, key: Name, x: T)
    ensures var m' := Pushed(m, key, x);
      && (forall k :: k in m' <==> k in m || k == key)
      && (forall k :: k in m && k != key ==> m'[k] == m[k])
      && m'[key] != [] && m'[key][|m'[key]| - 1] == x
      && (forall i :: 0 <= i < |m'[key]| - 1 ==> key in m && i < |m[key]| && m'[key][i] == m[key][i])
      && (key in m ==> |m'[key]| == |m[key]| + 1 && forall i :: 0 <= i < |m[key]| ==> m'[key][i] == m[key][i])
  {
  }

  /** The registry after a call has been queued under an id that was free. */
  ghost predicate CallQueued(r: Registry, c: MethodCall, r': Registry) {
    && c.correlationId != 0 && c.correlationId !in KnownIds(r) && IsOffered(r.offers, c.service)
    && r'.nextCorrelationId != 0
    && r' == r.(pendingCalls := Pushed(r.pendingCalls, MemberKey(c.service, c.methodName), c),
                nextCorrelationId := r'.nextCorrelationId)
  }

  lemma SubmittedQueues(r: Registry, c: MethodCall, authorized: bool)
    requires r.nextCorrelationId != 0 && (c.correlationId == 0 ==> CanAllocate(r))
    ensures var (r', call) := Submitted(r, c, authorized);
      if call.None? then r' == r
      else CallQueued(r, call.value, r') && call.value == c.(correlationId := call.value.correlationId)
  {
    hide KnownIds, KeyFor, Candidate, Pushed;
    if c.correlationId == 0 {
      SomeIdIsFree(KnownIds(r), r.nextCorrelationId);
    }
  }

  lemma QueueingKeepsCalls(r: Registry, c: MethodCall, r': Registry)
    requires Invariant(r) && CallQueued(r, c, r')
    ensures UniquePlaces(r') && CallsOk(r') && ResultsOk(r') && FieldsOk(r')
  {
    hide KnownIds, KeyFor, IsOffered, UniquePlaces, FuturesOk, Pushed, MemberKey;
    var key := MemberKey(c.service, c.methodName);
    PushedQueue(r.pendingCalls, key, c);
    SubmitKeepsUnique(r, key, c, r');
  }

  lemma ActiveStays(r: Registry, c: MethodCall, r': Registry, d: MethodCall)
    requires CallQueued(r, c, r') && Active(r, d)
    ensures Active(r', d)
  {
    hide KnownIds, KeyFor, MemberKey, Pushed, IsOffered;
    PushedQueue(r.pendingCalls, MemberKey(c.service, c.methodName), c);
    if InQueue(r.pendingCalls, d) {
      var key := MemberKey(d.service, d.methodName);
      var i :| 0 <= i < |r.pendingCalls[key]| && r.pendingCalls[key][i] == d;
      assert r'.pendingCalls[key][i] == d;
    }
  }

  lemma QueueingKeepsFutures(r: Registry, c: MethodCall, r': Registry)
    requires FuturesOk(r) && CallQueued(r, c, r')
    ensures FuturesOk(r')
  {
    hide CallQueued, Active;
    assert r'.futures == r.futures && r'.settled == r.settled && r'.nextFuture == r.nextFuture by {
      QueueingLeavesFutures(r, c, r');
    }
    forall id <- r.futures
      ensures Active(r', r.futures[id].call)
    {
      ActiveStays(r, c, r', r.futures[id].call);
    }
    forall t: nat | Unresolved(r, t)
      ensures Unresolved(r', t)
    {
      var id :| id in r.futures && r.futures[id].future == t;
      assert id in r'.futures && r'.futures[id].future == t;
    }
  }

  lemma QueueingLeavesFutures(r: Registry, c: MethodCall, r': Registry)
    requires CallQueued(r, c, r')
    ensures r'.futures == r.futures && r'.settled == r.settled && r'.nextFuture == r.nextFuture
  {
  }

  lemma SubmitKeepsInvariant(r: Registry, c: MethodCall, authorized: bool)
    requires Invariant(r) && (c.correlationId == 0 ==> CanAllocate(r))
    ensures Invariant(Submitted(r, c, authorized).0)
  {
    hide Submitted, UniquePlaces, CallsOk, ResultsOk, FuturesOk, FieldsOk, KnownIds, Pushed;
    SubmittedQueues(r, c, authorized);
    var (r', call) := Submitted(r, c, authorized);
    if call.Some? {
      QueueingKeepsCalls(r, call.value, r');
      QueueingKeepsFutures(r, call.value, r');
    }
  }

  /** The id of an unresolved future is known, so that a freshly queued call has no future yet. */
  lemma FutureIdsAreKnown(r: Registry, id: U64)
    requires FuturesOk(r) && id in r.futures
    ensures id in KnownIds(r)
  {
    var c := r.futures[id].call;
    if InQueue(r.pendingCalls, c) {
      var key := MemberKey(c.service, c.methodName);
      var i :| 0 <= i < |r.pendingCalls[key]| && r.pendingCalls[key][i] == c;
      KnownMeansSomewhere(r, id, Waiting(key, i));
    } else {
      KnownMeansSomewhere(r, id, Flying);
    }
  }

  lemma QueuedIsActive(r: Registry, c: MethodCall, r': Registry)
    requires CallQueued(r, c, r')
    ensures Active(r', c)
  {
    hide KnownIds, KeyFor, MemberKey, Pushed, IsOffered;
    var key := MemberKey(c.service, c.methodName);
    PushedQueue(r.pendingCalls, key, c);
    assert r'.pendingCalls[key][|r'.pendingCalls[key]| - 1] == c;
  }

  lemma FutureAdded(r: Registry, c: MethodCall, r': Registry)
    requires FuturesOk(r) && Active(r, c) && c.expectsResponse && c.correlationId !in r.futures
    requires r' == r.(
      futures := r.futures[c.correlationId := FutureState(c, r.nextFuture)], nextFuture := r.nextFuture + 1)
    ensures FuturesOk(r')
  {
    hide InQueue;
    forall t: nat | t < r'.nextFuture && t !in r'.settled
      ensures Unresolved(r', t)
    {
      if t == r.nextFuture {
        assert r'.futures[c.correlationId].future == t;
      } else {
        var id :| id in r.futures && r.futures[id].future == t;
        assert id in r'.futures && r'.futures[id].future == t;
      }
    }
  }

  lemma SameButFutures(r: Registry, r': Registry)
    requires r' == r.(futures := r'.futures, nextFuture := r'.nextFuture)
    ensures UniquePlaces(r) ==> UniquePlaces(r')
    ensures CallsOk(r) ==> CallsOk(r')
    ensures ResultsOk(r) ==> ResultsOk(r')
    ensures FieldsOk(r) ==> FieldsOk(r')
  {
    if UniquePlaces(r) {
      PlacesMove(r, r', (id: U64, p: Place) => p);
    }
  }

  lemma SubmitFutureKeepsInvariant(r: Registry, c: MethodCall, authorized: bool)
    requires Invariant(r) && (c.correlationId == 0 ==> CanAllocate(r))
    ensures Invariant(FutureSubmitted(r, c, authorized).0)
  {
    hide Submitted, UniquePlaces, CallsOk, ResultsOk, FuturesOk, FieldsOk, KnownIds, Pushed, Active;
    SubmittedQueues(r, c, authorized);
    SubmitKeepsInvariant(r, c, authorized);
    var (r1, call) := Submitted(r, c, authorized);
    if c.expectsResponse && call.Some? {
      QueuedIsActive(r, call.value, r1);
      if call.value.correlationId in r.futures {
        FutureIdsAreKnown(r, call.value.correlationId);
      }
      var r2 := FutureSubmitted(r, c, authorized).0;
      FutureAdded(r1, call.value, r2);
      SameButFutures(r1, r2);
    }
  }

  // ----- taking a call -----

  lemma PoppedQueue<T>(m: map<Name, seq<T>>, key: Name)
    requires key in m && m[key] != []
    ensures var m' := Popped(m, key);
      && (forall k :: k in m' ==> k in m && (k != key ==> m'[k] == m[k]))
      && (forall k :: k in m && k != key ==> k in m')
      && (key in m' ==> m'[key] != [] && m'[key] == m[key][1..])
      && (key !in m' ==> |m[key]| == 1)
  {
  }

  ghost predicate CallMoved(r: Registry, c: MethodCall, r': Registry) {
    var key := MemberKey(c.service, c.methodName);
    && key in r.pendingCalls && r.pendingCalls[key] != [] && r.pendingCalls[key][0] == c
    && r' == r.(pendingCalls := Popped(r.pendingCalls, key),
                inFlight := if c.expectsResponse then r.inFlight[c.correlationId := c] else r.inFlight)
  }

  lemma MovingKeepsCalls(r: Registry, c: MethodCall, r': Registry)
    requires Invariant(r) && CallMoved(r, c, r')
    ensures UniquePlaces(r') && CallsOk(r') && ResultsOk(r') && FieldsOk(r')
  {
    hide KeyFor, MemberKey, IsOffered, UniquePlaces, FuturesOk, Popped;
    var key := MemberKey(c.service, c.methodName);
    PoppedQueue(r.pendingCalls, key);
    TakeKeepsUnique(r, key, r');
  }

  lemma ActiveAfterMove(r: Registry, c: MethodCall, r': Registry, d: MethodCall)
    requires CallsOk(r) && UniquePlaces(r) && CallMoved(r, c, r') && Active(r, d) && d.expectsResponse
    ensures Active(r', d)
  {
    hide KeyFor, MemberKey, Popped, IsOffered, UniquePlaces;
    var key, own := MemberKey(c.service, c.methodName), MemberKey(d.service, d.methodName);
    PoppedQueue(r.pendingCalls, key);
    if InQueue(r.pendingCalls, d) {
      var i :| 0 <= i < |r.pendingCalls[own]| && r.pendingCalls[own][i] == d;
      if own == key && i == 0 {
        assert d == c;
      } else if own == key {
        assert r'.pendingCalls[own][i - 1] == d;
        assert InQueue(r'.pendingCalls, d);
      } else {
        assert InQueue(r'.pendingCalls, d);
      }
    } else if d.correlationId == c.correlationId {
      OnePlaceOnly(r, d.correlationId, Flying, Waiting(key, 0));
    }
  }

  lemma OnePlaceOnly(r: Registry, id: U64, p: Place, q: Place)
    requires UniquePlaces(r) && At(r, id, p) && At(r, id, q)
    ensures p == q
  {
  }

  lemma MovingKeepsFutures(r: Registry, c: MethodCall, r': Registry)
    requires Invariant(r) && CallMoved(r, c, r')
    ensures FuturesOk(r')
  {
    hide CallMoved, Active, UniquePlaces, CallsOk, ResultsOk, FieldsOk;
    assert r'.futures == r.futures && r'.settled == r.settled && r'.nextFuture == r.nextFuture by {
      MovingLeavesFutures(r, c, r');
    }
    forall id <- r.futures
      ensures Active(r', r.futures[id].call)
    {
      ActiveAfterMove(r, c, r', r.futures[id].call);
    }
    SameFutures(r, r');
  }

  lemma MovingLeavesFutures(r: Registry, c: MethodCall, r': Registry)
    requires CallMoved(r, c, r')
    ensures r'.futures == r.futures && r'.settled == r.settled && r'.nextFuture == r.nextFuture
  {
  }

  /** With the same futures and outcomes, the same futures are unresolved. */
  lemma SameFutures(r: Registry, r': Registry)
    requires r'.futures == r.futures
    ensures forall t: nat :: Unresolved(r, t) ==> Unresolved(r', t)
  {
    forall t: nat | Unresolved(r, t)
      ensures Unresolved(r', t)
    {
      var id :| id in r.futures && r.futures[id].future == t;
      assert id in r'.futures && r'.futures[id].future == t;
    }
  }

  lemma TakeKeepsInvariant(r: Registry, s: ServiceIdentifier, name: Name)
    requires Invariant(r)
    ensures Invariant(CallTaken(r, s, name).0)
  {
    hide UniquePlaces, ResultsOk, FuturesOk, FieldsOk, KeyFor, MemberKey, Popped, IsOffered;
    var (r', call) := CallTaken(r, s, name);
    if call.Some? {
      assert CallMoved(r, call.value, r');
      MovingKeepsCalls(r, call.value, r');
      MovingKeepsFutures(r, call.value, r');
    }
  }

  // ----- completing a call -----

  ghost predicate CallFinished(r: Registry, x: MethodResult, r': Registry) {
    var id := x.correlationId;
    && id in r.inFlight && id != 0
    && r.inFlight[id].service == x.service && r.inFlight[id].methodName == x.methodName
    && r' == r.(inFlight := r.inFlight - {id},
                pendingResults := Pushed(r.pendingResults, MemberKey(x.service, x.methodName), x),
                settled := if id in r.futures then r.settled[r.futures[id].future := Completed(x)] else r.settled,
                futures := r.futures - {id})
  }

  lemma FinishingKeepsCalls(r: Registry, x: MethodResult, r': Registry)
    requires Invariant(r) && CallFinished(r, x, r')
    ensures UniquePlaces(r') && CallsOk(r') && ResultsOk(r') && FieldsOk(r')
  {
    hide KeyFor, MemberKey, IsOffered, UniquePlaces, FuturesOk, Pushed;
    var key := MemberKey(x.service, x.methodName);
    PushedQueue(r.pendingResults, key, x);
    CompleteKeepsUnique(r, key, x, r');
  }

  /** One future settled and gone from the table, the others as before. */
  ghost predicate OneSettled(r: Registry, id: U64, x: Outcome, r': Registry) {
    && r'.futures == r.futures - {id} && r'.nextFuture == r.nextFuture
    && r'.settled == if id in r.futures then r.settled[r.futures[id].future := x] else r.settled
  }

  lemma StillUnresolved(r: Registry, id: U64, x: Outcome, r': Registry, t: nat)
    requires OneSettled(r, id, x, r') && t !in r'.settled && Unresolved(r, t)
    ensures Unresolved(r', t)
  {
    var k :| k in r.futures && r.futures[k].future == t;
    assert k in r'.futures && r'.futures[k].future == t;
  }

  lemma FutureSettled(r: Registry, id: U64, x: Outcome, r': Registry)
    requires FuturesOk(r) && OneSettled(r, id, x, r')
    requires forall k <- r'.futures :: Active(r', r'.futures[k].call)
    ensures FuturesOk(r')
  {
    hide Active, Unresolved;
    forall t: nat | t < r'.nextFuture && t !in r'.settled
      ensures Unresolved(r', t)
    {
      StillUnresolved(r, id, x, r', t);
    }
  }

  lemma FinishingKeepsFutures(r: Registry, x: MethodResult, r': Registry)
    requires FuturesOk(r) && CallFinished(r, x, r')
    ensures FuturesOk(r')
  {
    hide KeyFor, MemberKey, Pushed, InQueue, Unresolved;
    FutureSettled(r, x.correlationId, Completed(x), r');
  }

  lemma CompleteKeepsInvariant(r: Registry, x: MethodResult, authorized: bool)
    requires Invariant(r)
    ensures Invariant(CallCompleted(r, x, authorized).0)
  {
    hide UniquePlaces, CallsOk, ResultsOk, FuturesOk, FieldsOk, KeyFor, MemberKey, Pushed, IsOffered;
    var (r', result) := CallCompleted(r, x, authorized);
    if result.Some? {
      assert CallFinished(r, x, r');
      FinishingKeepsCalls(r, x, r');
      FinishingKeepsFutures(r, x, r');
    }
  }

  // ----- taking a result -----

  lemma TakeResultKeepsInvariant(r: Registry, s: ServiceIdentifier, name: Name, id: U64)
    requires Invariant(r)
    ensures Invariant(ResultTaken(r, s, name, id).0)
  {
    hide KeyFor, MemberKey, UniquePlaces, CallsOk, FieldsOk, InQueue, IsOffered, FindResult;
    var key := MemberKey(s, name);
    var (r', result) := ResultTaken(r, s, name, id);
    if result.Some? {
      var i := FindResult(r.pendingResults[key], id);
      TakeResultKeepsUnique(r, key, i, r');
      SameCallsStay(r, r');
      SameFutures(r, r');
    }
  }

  lemma SameCallsStay(r: Registry, r': Registry)
    requires r' == r.(pendingResults := r'.pendingResults)
    ensures CallsOk(r) ==> CallsOk(r')
    ensures FieldsOk(r) ==> FieldsOk(r')
  {
  }
}
