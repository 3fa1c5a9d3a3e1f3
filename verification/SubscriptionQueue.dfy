/** The bounded queue of one subscription, and what it delivers over any run. */
module SubscriptionQueue {
  import opened Bytes
  import opened Suffixes
  import opened ServiceTypes

  datatype Subscription = Subscription(id: U64, service: ServiceIdentifier, eventName: Name, queueDepth: nat)

  datatype QueueState<T> = QueueState(subscription: Subscription, queue: seq<T>)

  predicate Matches<T>(s: QueueState<T>, service: ServiceIdentifier, name: Name) {
    s.subscription.service == service && s.subscription.eventName == name
  }

  function Delivered<T>(s: QueueState<T>, sample: T): QueueState<T> {
    s.(queue := LastOf(s.subscription.queueDepth, s.queue + [sample]))
  }

  method Deliver<T>(s: QueueState<T>, sample: T) returns (r: QueueState<T>)
    ensures r == Delivered(s, sample)
  {
    var queue := s.queue + [sample];
    ghost var pushed := queue;
    while |queue| > s.subscription.queueDepth
      invariant LastOf(s.subscription.queueDepth, queue) == LastOf(s.subscription.queueDepth, pushed)
    {
      queue := queue[1..];
    }
    r := s.(queue := queue);
  }

  // ----- runs of one subscription -----

  datatype Action<T> = Push(sample: T) | Poll

  /** The queue together with everything that matched since subscribing, and how much of that has left the queue. */
  datatype History<T> = History(state: QueueState<T>, matched: seq<T>, gone: nat, polled: seq<nat>)

  function Subscribed<T>(s: Subscription): History<T> {
    History(QueueState(s, []), [], 0, [])
  }

  function Step<T>(h: History<T>, a: Action<T>): History<T> {
    match a
    case Push(x) =>
      var state, matched := Delivered(h.state, x), h.matched + [x];
      History(state, matched, if |state.queue| <= |matched| then |matched| - |state.queue| else 0, h.polled)
    case Poll =>
      if h.state.queue == [] then h
      else h.(state := h.state.(queue := h.state.queue[1..]), gone := h.gone + 1, polled := h.polled + [h.gone])
  }

  function After<T>(h: History<T>, actions: seq<Action<T>>): History<T>
    decreases |actions|
  {
    if actions == [] then h else After(Step(h, actions[0]), actions[1..])
  }

  predicate Strictly(xs: seq<nat>) {
    forall i, j :: 0 <= i < j < |xs| ==> xs[i] < xs[j]
  }

  /**
   The queue is a suffix of what matched, never longer than its depth; what was polled came in order,
   each entry at most once; and a matched entry that was never polled has left only if at least `depth`
   newer ones matched after it.
   */
  ghost predicate QueueIsSuffix<T>(h: History<T>) {
    var depth := h.state.subscription.queueDepth;
    && h.gone <= |h.matched| && h.state.queue == h.matched[h.gone..]
    && |h.state.queue| <= depth
    && Strictly(h.polled) && (forall i :: 0 <= i < |h.polled| ==> h.polled[i] < h.gone)
    && forall i :: 0 <= i < h.gone && i !in h.polled ==> i + depth < |h.matched|
  }

  lemma StepKeepsSuffix<T>(h: History<T>, a: Action<T>)
    requires QueueIsSuffix(h) && 0 < h.state.subscription.queueDepth
    ensures QueueIsSuffix(Step(h, a)) && Step(h, a).state.subscription == h.state.subscription
  {
    var next := Step(h, a);
    match a
    case Push(x) =>
      assert h.state.queue + [x] == (h.matched + [x])[h.gone..];
    case Poll =>
      if h.state.queue != [] {
        assert forall i :: 0 <= i < next.gone && i !in next.polled ==> i < h.gone && i !in h.polled by {
          assert next.polled[|h.polled|] == h.gone;
          assert forall i :: 0 <= i < |h.polled| ==> next.polled[i] == h.polled[i];
        }
      }
  }

  lemma {:induction false} EveryRunKeepsSuffix<T>(s: Subscription, actions: seq<Action<T>>)
    requires 0 < s.queueDepth
    ensures QueueIsSuffix(After(Subscribed<T>(s), actions))
  {
    RunKeepsSuffix(Subscribed<T>(s), actions);
  }

  lemma {:induction false} RunKeepsSuffix<T>(h: History<T>, actions: seq<Action<T>>)
    requires QueueIsSuffix(h) && 0 < h.state.subscription.queueDepth
    ensures QueueIsSuffix(After(h, actions))
    decreases |actions|
  {
    hide QueueIsSuffix, Step;
    if actions != [] {
      StepKeepsSuffix(h, actions[0]);
      RunKeepsSuffix(Step(h, actions[0]), actions[1..]);
    }
  }

  // ----- one subscription amid a longer run -----

  /** What a step of the run does to the queue, if anything. */
  function Moved<T>(q: QueueState<T>, deed: Option<Action<T>>): QueueState<T> {
    match deed
    case None => q
    case Some(Push(x)) => Delivered(q, x)
    case Some(Poll) => if q.queue == [] then q else q.(queue := q.queue[1..])
  }

  /** The history after what a run did, oldest first. */
  function Along<T>(h: History<T>, deeds: seq<Option<Action<T>>>): History<T>
    decreases |deeds|
  {
    if deeds == [] then h
    else
      var n := |deeds| - 1;
      var before := Along(h, deeds[..n]);
      if deeds[n].None? then before else Step(before, deeds[n].value)
  }

  lemma {:induction false} SuffixAlong<T>(h: History<T>, queues: seq<QueueState<T>>, deeds: seq<Option<Action<T>>>)
    requires QueueIsSuffix(h) && 0 < h.state.subscription.queueDepth
    requires |queues| == |deeds| + 1 && queues[0] == h.state
    requires forall i :: 0 <= i < |deeds| ==> queues[i + 1] == Moved(queues[i], deeds[i])
    ensures var end := Along(h, deeds);
      end.state == queues[|deeds|] && end.state.subscription == h.state.subscription && QueueIsSuffix(end)
    decreases |deeds|
  {
    hide QueueIsSuffix;
    if deeds != [] {
      var n := |deeds| - 1;
      SuffixAlong(h, queues[..n + 1], deeds[..n]);
      assert queues[n + 1] == Moved(queues[n], deeds[n]);
      if deeds[n].Some? {
        StepKeepsSuffix(Along(h, deeds[..n]), deeds[n].value);
      }
    }
  }

  /** The numbers given out so far increase and lie below the counter. */
  ghost predicate Rising<T>(matched: seq<T>, number: T -> U64, next: U64) {
    && (forall i, j :: 0 <= i < j < |matched| ==> number(matched[i]) < number(matched[j]))
    && forall i :: 0 <= i < |matched| ==> number(matched[i]) < next
  }

  lemma RisingFurther<T>(matched: seq<T>, number: T -> U64, next: U64, later: U64)
    requires Rising(matched, number, next) && next <= later
    ensures Rising(matched, number, later)
  {
  }

  lemma RisingByOne<T>(matched: seq<T>, number: T -> U64, x: T, later: U64)
    requires Rising(matched, number, number(x)) && number(x) < later
    ensures Rising(matched + [x], number, later)
  {
  }

  lemma {:induction false} NumbersAlong<T>(
    h: History<T>, deeds: seq<Option<Action<T>>>, counters: seq<U64>, number: T -> U64)
    requires |counters| == |deeds| + 1 && Rising(h.matched, number, counters[0])
    requires forall i :: 0 <= i < |deeds| ==> counters[i] <= counters[i + 1]
    requires forall i :: 0 <= i < |deeds| && deeds[i].Some? && deeds[i].value.Push? ==>
      number(deeds[i].value.sample) == counters[i] < counters[i + 1]
    ensures Rising(Along(h, deeds).matched, number, counters[|deeds|])
    decreases |deeds|
  {
    hide Rising;
    if deeds != [] {
      var n := |deeds| - 1;
      var before := Along(h, deeds[..n]);
      NumbersAlong(h, deeds[..n], counters[..n + 1], number);
      assert counters[n] <= counters[n + 1];
      RisingFurther(before.matched, number, counters[n], counters[n + 1]);
      if deeds[n].Some? && deeds[n].value.Push? {
        RisingByOne(before.matched, number, deeds[n].value.sample, counters[n + 1]);
      }
    }
  }
}
