/** The per-client rate limit of the API gateway, and how many requests it admits. */
module RateLimiter {
  import opened Bytes
  import opened ServiceTypes

  const ANONYMOUS: Name := [0x61, 0x6E, 0x6F, 0x6E, 0x79, 0x6D, 0x6F, 0x75, 0x73]

  /** The limits of a route; a registered route has both above zero. */
  datatype Route = Route(routeId: Name, maxRequests: U32, windowMs: U64)

  datatype ClientWindow = ClientWindow(clientId: Name, routeId: Name, startMs: U64, count: U32)

  predicate ValidRoute(r: Route) {
    r.maxRequests != 0 && r.windowMs != 0
  }

  /** Clients without an id share one. */
  function ClientId(client: Name): Name {
    if client == [] then ANONYMOUS else client
  }

  function FindWindow(windows: seq<ClientWindow>, client: Name, route: Name): (i: nat)
    ensures i <= |windows|
    ensures i < |windows| ==> windows[i].clientId == client && windows[i].routeId == route
  {
    if windows == [] || (windows[0].clientId == client && windows[0].routeId == route) then 0
    else 1 + FindWindow(windows[1..], client, route)
  }

  /** The windows after a request at time `t`, and whether the request is turned away. */
  function Limited(windows: seq<ClientWindow>, client: Name, r: Route, t: U64): (seq<ClientWindow>, bool) {
    var i := FindWindow(windows, ClientId(client), r.routeId);
    if i == |windows| then (windows + [ClientWindow(ClientId(client), r.routeId, t, 1)], false)
    else
      var w := windows[i];
      if t < w.startMs || t - w.startMs >= r.windowMs then (windows[i := w.(startMs := t, count := 1)], false)
      else if w.count >= r.maxRequests then (windows, true)
      else (windows[i := w.(count := w.count + 1)], false)
  }

  class RouteLimiter {
    var windows: seq<ClientWindow>

    constructor ()
      ensures windows == []
    {
      windows := [];
    }

    method IsRateLimited(client: Name, r: Route, timestampMs: U64) returns (limited: bool)
      modifies this
      ensures (windows, limited) == Limited(old(windows), client, r, timestampMs)
    {
      var i := FindWindow(windows, ClientId(client), r.routeId);
      if i == |windows| {
        windows := windows + [ClientWindow(ClientId(client), r.routeId, timestampMs, 1)];
        return false;
      }
      if timestampMs < windows[i].startMs || timestampMs - windows[i].startMs >= r.windowMs {
        windows := windows[i := windows[i].(startMs := timestampMs, count := 1)];
        return false;
      }
      if windows[i].count >= r.maxRequests {
        return true;
      }
      windows := windows[i := windows[i].(count := windows[i].count + 1)];
      return false;
    }
  }

  // ----- who shares a window -----

  /** Each client has its own name; those without one go by "anonymous". */
  predicate SameClient(a: Name, b: Name) {
    a == b || (a == [] && b == ANONYMOUS) || (a == ANONYMOUS && b == [])
  }

  lemma IdTellsClients(a: Name, b: Name)
    ensures ClientId(a) == ClientId(b) <==> SameClient(a, b)
  {
  }

  // ----- what the limiter remembers of one client on one route -----

  function Lookup(windows: seq<ClientWindow>, client: Name, route: Name): Option<ClientWindow> {
    var i := FindWindow(windows, client, route);
    if i == |windows| then None else Some(windows[i])
  }

  lemma {:induction false} LookupAfterAppend(windows: seq<ClientWindow>, w: ClientWindow, client: Name, route: Name)
    ensures Lookup(windows + [w], client, route) ==
      if Lookup(windows, client, route).Some? then Lookup(windows, client, route)
      else if w.clientId == client && w.routeId == route then Some(w)
      else None
    decreases |windows|
  {
    if windows == [] {
      assert windows + [w] == [w];
      assert [w][1..] == [];
    } else {
      assert (windows + [w])[0] == windows[0] && (windows + [w])[1..] == windows[1..] + [w];
      LookupAfterAppend(windows[1..], w, client, route);
    }
  }

  lemma {:induction false} LookupAfterUpdate(
    windows: seq<ClientWindow>, i: nat, w: ClientWindow, client: Name, route: Name)
    requires i < |windows| && w.clientId == windows[i].clientId && w.routeId == windows[i].routeId
    ensures FindWindow(windows[i := w], client, route) == FindWindow(windows, client, route)
    decreases |windows|
  {
    var after := windows[i := w];
    if !(windows[0].clientId == client && windows[0].routeId == route) {
      if i == 0 {
        assert after[1..] == windows[1..];
      } else {
        assert after[1..] == windows[1..][i - 1 := w];
        LookupAfterUpdate(windows[1..], i - 1, w, client, route);
      }
    }
  }

  /** A request of another client or route does not touch this one's window. */
  lemma OthersKeepWindow(windows: seq<ClientWindow>, client: Name, r: Route, t: U64, own: Name, route: Name)
    requires ClientId(client) != own || r.routeId != route
    ensures Lookup(Limited(windows, client, r, t).0, own, route) == Lookup(windows, own, route)
  {
    var i := FindWindow(windows, ClientId(client), r.routeId);
    if i == |windows| {
      LookupAfterAppend(windows, ClientWindow(ClientId(client), r.routeId, t, 1), own, route);
    } else {
      LookupAfterUpdate(windows, i, windows[i].(startMs := t, count := 1), own, route);
      if windows[i].count < r.maxRequests {
        LookupAfterUpdate(windows, i, windows[i].(count := windows[i].count + 1), own, route);
      }
    }
  }

  /** What a request does to its own window. */
  lemma OwnWindow(windows: seq<ClientWindow>, client: Name, r: Route, t: U64)
    ensures var own := ClientId(client);
      var before := Lookup(windows, own, r.routeId);
      var (windows', limited) := Limited(windows, client, r, t);
      Lookup(windows', own, r.routeId) == Some(
        if before.None? || t < before.value.startMs || t - before.value.startMs >= r.windowMs then
          ClientWindow(own, r.routeId, t, 1)
        else if limited then before.value
        else before.value.(count := before.value.count + 1))
  {
    var own, i := ClientId(client), FindWindow(windows, ClientId(client), r.routeId);
    if i == |windows| {
      LookupAfterAppend(windows, ClientWindow(own, r.routeId, t, 1), own, r.routeId);
    } else {
      LookupAfterUpdate(windows, i, windows[i].(startMs := t, count := 1), own, r.routeId);
      if windows[i].count < r.maxRequests {
        LookupAfterUpdate(windows, i, windows[i].(count := windows[i].count + 1), own, r.routeId);
      }
    }
  }

  // ----- counting admitted requests -----

  function CountIn(times: seq<U64>, from: nat, length: nat): nat {
    if times == [] then 0
    else (if from <= times[0] < from + length then 1 else 0) + CountIn(times[1..], from, length)
  }

  lemma {:induction false} CountConcat(a: seq<U64>, b: seq<U64>, from: nat, length: nat)
    ensures CountIn(a + b, from, length) == CountIn(a, from, length) + CountIn(b, from, length)
    decreases |a|
  {
    if a == [] {
      assert a + b == b;
    } else {
      assert (a + b)[0] == a[0] && (a + b)[1..] == a[1..] + b;
      CountConcat(a[1..], b, from, length);
    }
  }

  lemma {:induction false} CountIsBounded(times: seq<U64>, from: nat, length: nat)
    ensures CountIn(times, from, length) <= |times|
    decreases |times|
  {
    if times != [] {
      CountIsBounded(times[1..], from, length);
    }
  }

  lemma {:induction false} NoneInside(times: seq<U64>, from: nat, length: nat)
    requires forall i :: 0 <= i < |times| ==> times[i] < from || from + length <= times[i]
    ensures CountIn(times, from, length) == 0
    decreases |times|
  {
    if times != [] {
      NoneInside(times[1..], from, length);
    }
  }

  /** The admitted times, one group for each counting window. */
  function Flat(groups: seq<seq<U64>>): seq<U64> {
    if groups == [] then [] else Flat(groups[..|groups| - 1]) + groups[|groups| - 1]
  }

  /** Each group begins its window, holds at most the limit, and the next begins a full window later. */
  predicate WellGrouped(groups: seq<seq<U64>>, max: nat, window: nat) {
    && (forall g :: 0 <= g < |groups| ==>
          0 < |groups[g]| <= max
          && forall i :: 0 <= i < |groups[g]| ==> groups[g][0] <= groups[g][i] < groups[g][0] + window)
    && forall g :: 0 < g < |groups| ==>
         groups[g - 1][0] + window <= groups[g][0] && NoneAfter(groups[g - 1], groups[g][0])
  }

  predicate NoneAfter(times: seq<U64>, t: U64) {
    forall i :: 0 <= i < |times| ==> times[i] <= t
  }

  lemma {:induction false} EarlierGroupsEndBefore(groups: seq<seq<U64>>, max: nat, window: nat, k: nat)
    requires WellGrouped(groups, max, window) && 0 < window && k < |groups|
    ensures forall i :: 0 <= i < |Flat(groups[..k])| ==> Flat(groups[..k])[i] <= groups[k][0]
    decreases k
  {
    if k > 0 {
      EarlierGroupsEndBefore(groups, max, window, k - 1);
      assert groups[..k][..k - 1] == groups[..k - 1];
      assert Flat(groups[..k]) == Flat(groups[..k - 1]) + groups[k - 1];
    }
  }

  /** In any interval as long as a window, at most twice the limit is admitted. */
  lemma {:induction false} AtMostTwice(groups: seq<seq<U64>>, max: nat, window: nat, from: nat)
    requires WellGrouped(groups, max, window) && 0 < window
    ensures CountIn(Flat(groups), from, window) <= 2 * max
    decreases |groups|
  {
    hide CountIn;
    if groups == [] {
      NoneInside([], from, window);
    } else {
      var n := |groups| - 1;
      var last, before := groups[n], groups[..n];
      CountConcat(Flat(before), last, from, window);
      if last[0] >= from + window {
        NoneInside(last, from, window);
        AtMostTwice(before, max, window, from);
      } else {
        CountIsBounded(last, from, window);
        if n > 0 {
          CountIsBounded(groups[n - 1], from, window);
          assert before[..n - 1] == groups[..n - 1];
          CountConcat(Flat(groups[..n - 1]), groups[n - 1], from, window);
          EarlierGroupsEndBefore(groups, max, window, n - 1);
          NoneInside(Flat(groups[..n - 1]), from, window);
        } else {
          assert Flat(before) == [];
          NoneInside([], from, window);
        }
      }
    }
  }

  // ----- runs with any clients and routes -----

  /** A request that reaches the limiter, or one that an earlier check has turned away. */
  datatype Request = Request(client: Name, route: Route, timeMs: U64, passesChecks: bool)

  /** The windows, and the times at which this client was admitted on this route, grouped by counting window. */
  datatype Run = Run(windows: seq<ClientWindow>, groups: seq<seq<U64>>, latestMs: U64)

  predicate Concerns(q: Request, client: Name, r: Route) {
    q.passesChecks && SameClient(q.client, client) && q.route.routeId == r.routeId
  }

  function Step(run: Run, q: Request, client: Name, r: Route): Run {
    if !q.passesChecks then run
    else
      var (windows, limited) := Limited(run.windows, q.client, q.route, q.timeMs);
      if !Concerns(q, client, r) then run.(windows := windows)
      else if limited then Run(windows, run.groups, q.timeMs)
      else
        var w := Lookup(windows, ClientId(client), r.routeId);
        var opens := run.groups == [] || (w.Some? && w.value.count == 1);
        Run(windows,
            if opens then run.groups + [[q.timeMs]]
            else run.groups[|run.groups| - 1 := run.groups[|run.groups| - 1] + [q.timeMs]],
            q.timeMs)
  }

  /** This client's window is the last group: same start, same count. */
  predicate InStep(run: Run, client: Name, r: Route) {
    && WellGrouped(run.groups, r.maxRequests, r.windowMs)
    && var w := Lookup(run.windows, ClientId(client), r.routeId);
       if run.groups == [] then w == None
       else
         var last := run.groups[|run.groups| - 1];
         && last != []
         && w == Some(ClientWindow(ClientId(client), r.routeId, last[0], |last| % U32_MODULUS))
         && NoneAfter(last, run.latestMs)
  }

  lemma GroupsGrow(groups: seq<seq<U64>>, max: nat, window: nat, t: U64)
    requires WellGrouped(groups, max, window) && 0 < max && 0 < window
    requires groups != [] ==>
      var last := groups[|groups| - 1];
      last[0] + window <= t && NoneAfter(last, t)
    ensures WellGrouped(groups + [[t]], max, window)
  {
    hide NoneAfter;
    var more := groups + [[t]];
    assert forall g :: 0 <= g < |groups| ==> more[g] == groups[g];
  }

  lemma LastGroupGrows(groups: seq<seq<U64>>, max: nat, window: nat, t: U64)
    requires WellGrouped(groups, max, window) && groups != []
    requires var last := groups[|groups| - 1]; |last| < max && last[0] <= t < last[0] + window
    ensures WellGrouped(groups[|groups| - 1 := groups[|groups| - 1] + [t]], max, window)
  {
    var n := |groups| - 1;
    var more := groups[n := groups[n] + [t]];
    assert forall g :: 0 <= g < n ==> more[g] == groups[g];
    assert more[n][0] == groups[n][0];
  }

  lemma StepStaysInStep(run: Run, q: Request, client: Name, r: Route)
    requires InStep(run, client, r) && ValidRoute(r)
    requires Concerns(q, client, r) ==> q.route == r && run.latestMs <= q.timeMs
    ensures InStep(Step(run, q, client, r), client, r)
    ensures Concerns(q, client, r) ==> Step(run, q, client, r).latestMs == q.timeMs
    ensures !Concerns(q, client, r) ==> Step(run, q, client, r).latestMs == run.latestMs
  {
    hide Lookup, Limited, WellGrouped;
    IdTellsClients(q.client, client);
    if Concerns(q, client, r) {
      OwnWindow(run.windows, q.client, r, q.timeMs);
      OwnStep(run, q, client, r);
    } else if q.passesChecks {
      OthersKeepWindow(run.windows, q.client, q.route, q.timeMs, ClientId(client), r.routeId);
    }
  }

  lemma OwnStep(run: Run, q: Request, client: Name, r: Route)
    requires InStep(run, client, r) && ValidRoute(r) && Concerns(q, client, r)
    requires q.route == r && run.latestMs <= q.timeMs
    ensures InStep(Step(run, q, client, r), client, r)
  {
    hide Lookup, WellGrouped;
    var t := q.timeMs;
    OwnWindow(run.windows, q.client, r, t);
    var limited := Limited(run.windows, q.client, r, t).1;
    LimitedMeans(run.windows, q.client, r, t);
    if run.groups == [] {
      GroupsGrow([], r.maxRequests, r.windowMs, t);
      assert [] + [[t]] == [[t]];
    } else {
      WindowSize(run, client, r);
      var last := run.groups[|run.groups| - 1];
      if t - last[0] >= r.windowMs {
        GroupsGrow(run.groups, r.maxRequests, r.windowMs, t);
      } else if !limited {
        LastGroupGrows(run.groups, r.maxRequests, r.windowMs, t);
      }
    }
  }

  lemma WindowSize(run: Run, client: Name, r: Route)
    requires InStep(run, client, r) && run.groups != []
    ensures var last := run.groups[|run.groups| - 1];
      |last| <= r.maxRequests && |last| % U32_MODULUS == |last|
  {
  }

  lemma LimitedMeans(windows: seq<ClientWindow>, client: Name, r: Route, t: U64)
    ensures var w := Lookup(windows, ClientId(client), r.routeId);
      Limited(windows, client, r, t).1 <==>
        w.Some? && w.value.startMs <= t && t - w.value.startMs < r.windowMs && w.value.count >= r.maxRequests
  {
  }

  function After(run: Run, requests: seq<Request>, client: Name, r: Route): Run
    decreases |requests|
  {
    if requests == [] then run else After(Step(run, requests[0], client, r), requests[1..], client, r)
  }

  /** The requests of this client on this route carry the same limits, and their times never go back. */
  predicate Orderly(requests: seq<Request>, client: Name, r: Route, latestMs: U64)
    decreases |requests|
  {
    requests == [] ||
    (var q := requests[0];
     if Concerns(q, client, r) then q.route == r && latestMs <= q.timeMs && Orderly(requests[1..], client, r, q.timeMs)
     else Orderly(requests[1..], client, r, latestMs))
  }

  lemma {:induction false} RunStaysInStep(run: Run, requests: seq<Request>, client: Name, r: Route)
    requires InStep(run, client, r) && ValidRoute(r) && Orderly(requests, client, r, run.latestMs)
    ensures InStep(After(run, requests, client, r), client, r)
    decreases |requests|
  {
    hide InStep, Step, Concerns;
    if requests != [] {
      StepStaysInStep(run, requests[0], client, r);
      RunStaysInStep(Step(run, requests[0], client, r), requests[1..], client, r);
    }
  }

  /**
   Over every run with non-decreasing times, whatever other clients and routes do: at most the limit is
   admitted in each counting window, and at most twice the limit in any interval of the window's length.
   */
  lemma AdmissionIsLimited(requests: seq<Request>, client: Name, r: Route, from: nat)
    requires ValidRoute(r) && Orderly(requests, client, r, 0)
    ensures var groups := After(Run([], [], 0), requests, client, r).groups;
      && (forall g :: 0 <= g < |groups| ==> |groups[g]| <= r.maxRequests)
      && CountIn(Flat(groups), from, r.windowMs) <= 2 * r.maxRequests as nat
  {
    hide After, Flat, CountIn, Lookup, Orderly;
    NothingAdmitted(client, r);
    RunStaysInStep(Run([], [], 0), requests, client, r);
    AtMostTwice(After(Run([], [], 0), requests, client, r).groups, r.maxRequests, r.windowMs, from);
  }

  /** The last counting window still runs at time `t` and has admitted as many requests as it may. */
  predicate WindowIsFull(groups: seq<seq<U64>>, r: Route, t: U64) {
    groups != []
    && (var last := groups[|groups| - 1];
        last != [] && last[0] <= t < last[0] + r.windowMs as int && |last| == r.maxRequests)
  }

  /** And nothing is turned away needlessly: only while the client's own counting window is full. */
  lemma RefusedExactlyWhenFull(requests: seq<Request>, client: Name, r: Route, t: U64)
    requires ValidRoute(r) && Orderly(requests, client, r, 0)
    ensures var run := After(Run([], [], 0), requests, client, r);
      Limited(run.windows, client, r, t).1 <==> WindowIsFull(run.groups, r, t)
  {
    hide After, Lookup, Orderly, Limited, WellGrouped;
    NothingAdmitted(client, r);
    RunStaysInStep(Run([], [], 0), requests, client, r);
    var run := After(Run([], [], 0), requests, client, r);
    LimitedMeans(run.windows, client, r, t);
    if run.groups != [] {
      WindowSize(run, client, r);
    }
  }

  lemma NothingAdmitted(client: Name, r: Route)
    ensures InStep(Run([], [], 0), client, r)
  {
  }

  // ----- clients and routes do not affect each other -----

  /** The verdicts on the requests of one client on one route, in a run of any requests. */
  function VerdictsOn(windows: seq<ClientWindow>, requests: seq<Request>, client: Name, route: Name): seq<bool>
    decreases |requests|
  {
    if requests == [] then []
    else
      var q := requests[0];
      if !q.passesChecks then VerdictsOn(windows, requests[1..], client, route)
      else
        var (windows', limited) := Limited(windows, q.client, q.route, q.timeMs);
        (if Owned(q, client, route) then [limited] else []) + VerdictsOn(windows', requests[1..], client, route)
  }

  predicate Owned(q: Request, client: Name, route: Name) {
    SameClient(q.client, client) && q.route.routeId == route
  }

  function OnlyOwned(requests: seq<Request>, client: Name, route: Name): seq<Request> {
    if requests == [] then []
    else (if Owned(requests[0], client, route) then [requests[0]] else []) + OnlyOwned(requests[1..], client, route)
  }

  /** The verdicts depend on nothing but the client's own requests on the route. */
  lemma {:induction false} OnlyOwnRequestsMatter(
    windows: seq<ClientWindow>, alone: seq<ClientWindow>, requests: seq<Request>, client: Name, route: Name)
    requires Lookup(windows, ClientId(client), route) == Lookup(alone, ClientId(client), route)
    ensures VerdictsOn(windows, requests, client, route)
      == VerdictsOn(alone, OnlyOwned(requests, client, route), client, route)
    decreases |requests|
  {
    hide Lookup, Limited, ClientId;
    if requests != [] {
      var q, own := requests[0], OnlyOwned(requests[1..], client, route);
      var windows' := if q.passesChecks then Limited(windows, q.client, q.route, q.timeMs).0 else windows;
      var alone' := if q.passesChecks then Limited(alone, q.client, q.route, q.timeMs).0 else alone;
      IdTellsClients(q.client, client);
      if Owned(q, client, route) {
        assert OnlyOwned(requests, client, route) == [q] + own && ([q] + own)[1..] == own;
        SameVerdict(windows, alone, q.client, q.route, q.timeMs);
        OnlyOwnRequestsMatter(windows', alone', requests[1..], client, route);
      } else {
        assert OnlyOwned(requests, client, route) == own;
        OthersKeepWindow(windows, q.client, q.route, q.timeMs, ClientId(client), route);
        OnlyOwnRequestsMatter(windows', alone, requests[1..], client, route);
      }
    }
  }

  lemma SameVerdict(windows: seq<ClientWindow>, alone: seq<ClientWindow>, client: Name, r: Route, t: U64)
    requires Lookup(windows, ClientId(client), r.routeId) == Lookup(alone, ClientId(client), r.routeId)
    ensures var (a, limitedA) := Limited(windows, client, r, t);
      var (b, limitedB) := Limited(alone, client, r, t);
      limitedA == limitedB && Lookup(a, ClientId(client), r.routeId) == Lookup(b, ClientId(client), r.routeId)
  {
    hide Lookup, Limited, ClientId;
    LimitedMeans(windows, client, r, t);
    LimitedMeans(alone, client, r, t);
    OwnWindow(windows, client, r, t);
    OwnWindow(alone, client, r, t);
  }

  function WithoutClient(requests: seq<Request>, client: Name): seq<Request> {
    if requests == [] then []
    else (if SameClient(requests[0].client, client) then [] else [requests[0]]) + WithoutClient(requests[1..], client)
  }

  lemma {:induction false} OwnedSurvive(requests: seq<Request>, client: Name, other: Name, route: Name)
    requires !SameClient(client, other)
    ensures OnlyOwned(WithoutClient(requests, other), client, route) == OnlyOwned(requests, client, route)
    decreases |requests|
  {
    if requests != [] {
      hide SameClient, Owned;
      NotOwned(requests[0], client, other, route);
      var rest := WithoutClient(requests[1..], other);
      OwnedSurvive(requests[1..], client, other, route);
      assert ([requests[0]] + rest)[1..] == rest && [] + rest == rest;
    }
  }

  lemma NotOwned(q: Request, client: Name, other: Name, route: Name)
    requires !SameClient(client, other)
    ensures SameClient(q.client, other) ==> !Owned(q, client, route)
  {
  }

  /** Leaving out all requests of one client changes no verdict on another, on any route, in any run. */
  lemma ClientsAreIndependent(requests: seq<Request>, client: Name, other: Name, route: Name)
    requires !SameClient(client, other)
    ensures VerdictsOn([], requests, client, route) == VerdictsOn([], WithoutClient(requests, other), client, route)
  {
    hide Lookup, VerdictsOn, OnlyOwned, WithoutClient;
    OwnedSurvive(requests, client, other, route);
    OnlyOwnRequestsMatter([], [], requests, client, route);
    OnlyOwnRequestsMatter([], [], WithoutClient(requests, other), client, route);
  }

  /** A client without a name is treated as one named "anonymous". */
  lemma NamelessIsAnonymous(windows: seq<ClientWindow>, r: Route, t: U64)
    ensures Limited(windows, [], r, t) == Limited(windows, ANONYMOUS, r, t)
  {
  }
}
