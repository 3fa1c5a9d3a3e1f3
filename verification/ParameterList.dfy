/**
 Parameter lists (section 9.4.2.11 of OMG DDSI-RTPS 2.2): padded type-length-value entries up to a
 sentinel, and what a decoder that folds over the entries makes of them.
 */
module ParameterList {
  import opened Bytes

  const CDR_LE_HEADER: seq<Byte> := [0x00, 0x03, 0x00, 0x00]
  const PID_SENTINEL: U16 := 0x0001
  const SENTINEL_BYTES: seq<Byte> := [0x01, 0x00, 0x00, 0x00]

  datatype Parameter = Parameter(id: U16, value: seq<Byte>)

  function Align4(n: nat): (r: nat)
    ensures n <= r < n + 4 && r % 4 == 0
  {
    (n + 3) / 4 * 4
  }

  function Zeros(n: nat): (z: seq<Byte>)
    ensures |z| == n
  {
    seq(n, _ => 0)
  }

  // ----- printing -----

  function ParameterBytes(p: Parameter): (b: seq<Byte>)
    ensures |b| == 4 + Align4(|p.value|)
  {
    PutU16Le(p.id) + PutU16Le(|p.value| % 0x1_0000) + p.value + Zeros(Align4(|p.value|) - |p.value|)
  }

  function AllParameters(params: seq<Parameter>): seq<Byte> {
    if params == [] then [] else ParameterBytes(params[0]) + AllParameters(params[1..])
  }

  /** The payload of a discovery message. */
  function ListBytes(params: seq<Parameter>): seq<Byte> {
    CDR_LE_HEADER + AllParameters(params) + SENTINEL_BYTES
  }

  /** The buffer with the parameter appended and then padded to a multiple of four octets in all. */
  function WithParameter(bytes: seq<Byte>, p: Parameter): seq<Byte> {
    var written := bytes + PutU16Le(p.id) + PutU16Le(|p.value| % 0x1_0000) + p.value;
    written + Zeros(Align4(|written|) - |written|)
  }

  lemma FirstAligned(n: nat, m: nat)
    requires n <= m <= Align4(n) && m % 4 == 0
    ensures m == Align4(n)
  {
  }

  lemma AlignedBefore(a: nat, n: nat)
    requires a % 4 == 0
    ensures Align4(a + 4 + n) == a + 4 + Align4(n)
  {
  }

  method WriteParameter(bytes: seq<Byte>, p: Parameter) returns (r: seq<Byte>)
    ensures r == WithParameter(bytes, p) && |r| % 4 == 0
    ensures |bytes| % 4 == 0 ==> r == bytes + ParameterBytes(p)
  {
    hide PutU16Le, Align4;
    r := bytes + PutU16Le(p.id);
    r := r + PutU16Le(|p.value| % 0x1_0000);
    r := r + p.value;
    ghost var written, size := r, Align4(|r|);
    while |r| % 4 != 0
      invariant |written| <= |r| <= size && r == written + Zeros(|r| - |written|)
      decreases size - |r|
    {
      assert Zeros(|r| - |written|) + [0] == Zeros(|r| - |written| + 1);
      r := r + [0];
    }
    FirstAligned(|written|, |r|);
    if |bytes| % 4 == 0 {
      AlignedBefore(|bytes|, |p.value|);
    }
  }

  // ----- decoding with any step function -----

  function Then<S>(step: (S, Parameter) -> Option<S>, s: Option<S>, p: Parameter): Option<S> {
    if s.None? then None else step(s.value, p)
  }

  /** The state after all parameters, unless one of them was refused. */
  function Decoded<S>(step: (S, Parameter) -> Option<S>, s: Option<S>, params: seq<Parameter>): Option<S>
    decreases |params|
  {
    if params == [] then s else Decoded(step, Then(step, s, params[0]), params[1..])
  }

  /** The walk over the octets of a payload, from the first parameter to the sentinel. */
  function Walked<S>(step: (S, Parameter) -> Option<S>, s: S, rest: seq<Byte>): Option<S>
    decreases |rest|
  {
    if |rest| < 4 then None
    else
      var id, length := GetU16Le(rest, 0), GetU16Le(rest, 2);
      if id == PID_SENTINEL then (if length != 0 then None else Some(s))
      else
        var next := 4 + Align4(length);
        if next > |rest| then None
        else
          var after := step(s, Parameter(id, rest[4..4 + length]));
          if after.None? then None else Walked(step, after.value, rest[next..])
  }

  function WalkedPayload<S>(step: (S, Parameter) -> Option<S>, s: S, payload: seq<Byte>): Option<S> {
    if |payload| < 8 || payload[..4] != CDR_LE_HEADER then None else Walked(step, s, payload[4..])
  }

  /** The loop over the parameters of a payload, at a growing offset. */
  method WalkPayload<S>(step: (S, Parameter) -> Option<S>, start: S, payload: seq<Byte>) returns (r: Option<S>)
    ensures r == WalkedPayload(step, start, payload)
  {
    hide GetU16Le;
    if |payload| < 8 || payload[..4] != CDR_LE_HEADER {
      return None;
    }
    var state := start;
    var offset := 4;
    while offset + 4 <= |payload|
      invariant 4 <= offset <= |payload|
      invariant Walked(step, state, payload[offset..]) == Walked(step, start, payload[4..])
      decreases |payload| - offset
    {
      ghost var rest := payload[offset..];
      var parameterId, length := GetU16Le(payload, offset), GetU16Le(payload, offset + 2);
      FieldsInRest(payload, offset);
      if parameterId == PID_SENTINEL {
        return if length != 0 then None else Some(state);
      }
      var next := offset + 4 + Align4(length);
      if next > |payload| {
        return None;
      }
      var value := payload[offset + 4..offset + 4 + length];
      assert value == rest[4..4 + length];
      var parsed := step(state, Parameter(parameterId, value));
      if parsed.None? {
        return None;
      }
      state := parsed.value;
      assert payload[next..] == rest[next - offset..];
      offset := next;
    }
    return None;
  }

  lemma FieldsInRest(payload: seq<Byte>, offset: nat)
    requires offset + 4 <= |payload|
    ensures GetU16Le(payload[offset..], 0) == GetU16Le(payload, offset)
    ensures GetU16Le(payload[offset..], 2) == GetU16Le(payload, offset + 2)
  {
  }

  predicate Printable(p: Parameter) {
    p.id != PID_SENTINEL && |p.value| < 0x1_0000
  }

  predicate AllPrintable(params: seq<Parameter>) {
    forall i :: 0 <= i < |params| ==> Printable(params[i])
  }

  lemma FirstParameter(p: Parameter, rest: seq<Byte>)
    requires Printable(p)
    ensures var b := ParameterBytes(p) + rest;
      && GetU16Le(b, 0) == p.id && GetU16Le(b, 2) == |p.value|
      && b[4..4 + |p.value|] == p.value && b[4 + Align4(|p.value|)..] == rest
  {
    hide PutU16Le, GetU16Le;
    var b := ParameterBytes(p) + rest;
    assert b[0..2] == PutU16Le(p.id);
    assert b[2..4] == PutU16Le(|p.value|);
    ReadU16Le(b, 0, p.id);
    ReadU16Le(b, 2, |p.value|);
  }

  /** Walking printed parameters decodes exactly those parameters, whatever follows the sentinel. */
  lemma {:induction false} WalkDecodes<S>(
    step: (S, Parameter) -> Option<S>, s: S, params: seq<Parameter>, junk: seq<Byte>)
    requires AllPrintable(params)
    ensures Walked(step, s, AllParameters(params) + SENTINEL_BYTES + junk) == Decoded(step, Some(s), params)
    decreases |params|
  {
    hide ParameterBytes, GetU16Le;
    if params == [] {
      SentinelFields(junk);
      assert [] + SENTINEL_BYTES + junk == SENTINEL_BYTES + junk;
    } else {
      var rest := AllParameters(params[1..]) + SENTINEL_BYTES + junk;
      assert AllParameters(params) + SENTINEL_BYTES + junk == ParameterBytes(params[0]) + rest;
      FirstParameter(params[0], rest);
      var after := step(s, params[0]);
      if after.None? {
        NothingAfterRefusal(step, params[1..]);
      } else {
        WalkDecodes(step, after.value, params[1..], junk);
      }
    }
  }

  lemma SentinelFields(junk: seq<Byte>)
    ensures GetU16Le(SENTINEL_BYTES + junk, 0) == PID_SENTINEL && GetU16Le(SENTINEL_BYTES + junk, 2) == 0
  {
  }

  lemma {:induction false} NothingAfterRefusal<S>(step: (S, Parameter) -> Option<S>, params: seq<Parameter>)
    ensures Decoded(step, None, params) == None
    decreases |params|
  {
    if params != [] {
      NothingAfterRefusal(step, params[1..]);
    }
  }

  lemma PayloadDecodes<S>(step: (S, Parameter) -> Option<S>, s: S, params: seq<Parameter>, junk: seq<Byte>)
    requires AllPrintable(params)
    ensures WalkedPayload(step, s, ListBytes(params) + junk) == Decoded(step, Some(s), params)
  {
    hide AllParameters, Walked, Decoded, AllPrintable;
    var payload := ListBytes(params) + junk;
    assert payload[..4] == CDR_LE_HEADER;
    assert payload[4..] == AllParameters(params) + SENTINEL_BYTES + junk;
    WalkDecodes(step, s, params, junk);
  }

  /** A chain of steps from state to state decodes the list of their parameters. */
  lemma {:induction false} StepsDecode<S>(
    step: (S, Parameter) -> Option<S>, params: seq<Parameter>, states: seq<S>)
    requires |states| == |params| + 1
    requires forall i :: 0 <= i < |params| ==> step(states[i], params[i]) == Some(states[i + 1])
    ensures Decoded(step, Some(states[0]), params) == Some(states[|params|])
    decreases |params|
  {
    if params != [] {
      StepsDecode(step, params[1..], states[1..]);
    }
  }

  // ----- order does not matter -----

  /** Applying the two parameters in either order comes to the same, including refusal. */
  ghost predicate Commute<S(!new)>(step: (S, Parameter) -> Option<S>, p: Parameter, q: Parameter) {
    forall s: S :: Then(step, step(s, p), q) == Then(step, step(s, q), p)
  }

  ghost predicate AllCommute<S(!new)>(step: (S, Parameter) -> Option<S>, params: seq<Parameter>) {
    forall i, j :: 0 <= i < j < |params| ==> Commute(step, params[i], params[j])
  }

  /** A parameter that leaves every state as it is. */
  ghost predicate Ignored<S(!new)>(step: (S, Parameter) -> Option<S>, p: Parameter) {
    forall s: S :: step(s, p) == Some(s)
  }

  /** A parameter that no state accepts. */
  ghost predicate Refused<S(!new)>(step: (S, Parameter) -> Option<S>, p: Parameter) {
    forall s: S :: step(s, p) == None
  }

  lemma RefusedCommutes<S(!new)>(step: (S, Parameter) -> Option<S>, p: Parameter, q: Parameter)
    requires Refused(step, p) || Refused(step, q)
    ensures Commute(step, p, q)
  {
  }

  lemma {:induction false} Bubble<S(!new)>(
    step: (S, Parameter) -> Option<S>, s: Option<S>, before: seq<Parameter>, p: Parameter)
    requires forall i :: 0 <= i < |before| ==> Commute(step, before[i], p)
    ensures Decoded(step, Then(step, s, p), before) == Then(step, Decoded(step, s, before), p)
    decreases |before|
  {
    if before != [] {
      var q := before[0];
      assert Commute(step, q, p);
      assert Then(step, Then(step, s, p), q) == Then(step, Then(step, s, q), p);
      Bubble(step, Then(step, s, q), before[1..], p);
    }
  }

  lemma {:induction false} DecodedConcat<S>(
    step: (S, Parameter) -> Option<S>, s: Option<S>, a: seq<Parameter>, b: seq<Parameter>)
    ensures Decoded(step, s, a + b) == Decoded(step, Decoded(step, s, a), b)
    decreases |a|
  {
    if a == [] {
      assert a + b == b;
    } else {
      assert (a + b)[0] == a[0] && (a + b)[1..] == a[1..] + b;
      DecodedConcat(step, Then(step, s, a[0]), a[1..], b);
    }
  }

  lemma MoveToFront<S(!new)>(step: (S, Parameter) -> Option<S>, s: Option<S>, xs: seq<Parameter>, i: nat)
    requires i < |xs| && forall j :: 0 <= j < i ==> Commute(step, xs[j], xs[i])
    ensures Decoded(step, s, xs) == Decoded(step, Then(step, s, xs[i]), xs[..i] + xs[i + 1..])
  {
    hide Commute;
    var before, p, after := xs[..i], xs[i], xs[i + 1..];
    assert xs == before + ([p] + after);
    DecodedConcat(step, s, before, [p] + after);
    Bubble(step, s, before, p);
    DecodedConcat(step, Then(step, s, p), before, after);
    assert ([p] + after)[1..] == after;
  }

  lemma SameRest(xs: seq<Parameter>, i: nat, ys: seq<Parameter>)
    requires i < |xs| && ys != [] && xs[i] == ys[0] && multiset(xs) == multiset(ys)
    ensures multiset(xs[..i] + xs[i + 1..]) == multiset(ys[1..])
  {
    var front, p, back, rest := xs[..i], xs[i], xs[i + 1..], ys[1..];
    assert xs == front + ([p] + back) && ys == [p] + rest;
    assert multiset(xs) == multiset(front + back) + multiset{p};
    assert multiset(ys) == multiset(rest) + multiset{p};
    SameWithout(multiset(front + back), multiset(rest), multiset{p});
  }

  lemma SameWithout(a: multiset<Parameter>, b: multiset<Parameter>, c: multiset<Parameter>)
    requires a + c == b + c
    ensures a == b
  {
    assert forall p :: a[p] == (a + c)[p] - c[p];
    assert forall p :: b[p] == (b + c)[p] - c[p];
  }

  /** Decoding is unchanged by permuting parameters that commute. */
  lemma {:induction false} OrderIsIrrelevant<S(!new)>(
    step: (S, Parameter) -> Option<S>, s: Option<S>, xs: seq<Parameter>, ys: seq<Parameter>)
    requires multiset(xs) == multiset(ys) && AllCommute(step, xs)
    ensures Decoded(step, s, xs) == Decoded(step, s, ys)
    decreases |ys|
  {
    hide Commute;
    assert |xs| == |multiset(xs)| == |ys|;
    if ys != [] {
      assert ys[0] in multiset(ys);
      var i :| 0 <= i < |xs| && xs[i] == ys[0];
      EarlierCommute(step, xs, i);
      MoveToFront(step, s, xs, i);
      SameRest(xs, i, ys);
      RestCommutes(step, xs, i);
      OrderIsIrrelevant(step, Then(step, s, ys[0]), xs[..i] + xs[i + 1..], ys[1..]);
    }
  }

  lemma EarlierCommute<S(!new)>(step: (S, Parameter) -> Option<S>, xs: seq<Parameter>, i: nat)
    requires AllCommute(step, xs) && i < |xs|
    ensures forall j :: 0 <= j < i ==> Commute(step, xs[j], xs[i])
  {
    hide Commute;
  }

  lemma RestCommutes<S(!new)>(step: (S, Parameter) -> Option<S>, xs: seq<Parameter>, i: nat)
    requires AllCommute(step, xs) && i < |xs|
    ensures AllCommute(step, xs[..i] + xs[i + 1..])
  {
    hide Commute;
    var rest := xs[..i] + xs[i + 1..];
    assert forall j :: 0 <= j < |rest| ==> rest[j] == if j < i then xs[j] else xs[j + 1];
  }

  /** The parameters the decoder knows. */
  function Known(ids: set<U16>, params: seq<Parameter>): seq<Parameter> {
    if params == [] then []
    else (if params[0].id in ids then [params[0]] else []) + Known(ids, params[1..])
  }

  /** Parameters with unknown ids may stand anywhere in the list. */
  lemma {:induction false} UnknownAreIgnored<S(!new)>(
    step: (S, Parameter) -> Option<S>, s: Option<S>, ids: set<U16>, params: seq<Parameter>)
    requires forall p: Parameter :: p.id !in ids ==> Ignored(step, p)
    ensures Decoded(step, s, params) == Decoded(step, s, Known(ids, params))
    decreases |params|
  {
    if params != [] {
      var p := params[0];
      UnknownAreIgnored(step, Then(step, s, p), ids, params[1..]);
      if p.id in ids {
        assert Known(ids, params)[1..] == Known(ids, params[1..]);
      } else {
        assert Ignored(step, p);
        assert Then(step, s, p) == s;
        assert Known(ids, params) == Known(ids, params[1..]);
      }
    }
  }
}
