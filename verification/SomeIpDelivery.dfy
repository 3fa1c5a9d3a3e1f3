/** That messages sent on a stream do get through, and what a sender refuses. */
module SomeIpDelivery {
  import opened Bytes
  import opened SomeIpMessage
  import opened SomeIpStream

  /** A message is sent exactly if it names a service, has the protocol version, and fits a datagram with its header. */
  lemma SendingIsExact(m: Message)
    ensures Serialized(m).Some? <==>
      m.header.serviceId > 0 && m.header.protocolVersion == 1 && |m.payload| <= 1400 - 16
    ensures Serialized(m).Some? ==> |Serialized(m).value| == 16 + |m.payload|
  {
  }

  /** Nothing is left over at either end or between them. */
  predicate Quiet(c: Conversation) {
    c.unwritten == [] && c.underWay == [] && c.partial == []
  }

  /** Begin the message, write all of it, and read the header and then the payload. */
  function Script(m: Message): seq<Event>
    requires Serialized(m).Some?
  {
    [Begin(m), Write(|Serialized(m).value|), Read(16), Read(|m.payload|)]
  }

  function Scripts(messages: seq<Message>): seq<Event>
    requires forall i :: 0 <= i < |messages| ==> Serialized(messages[i]).Some?
  {
    if messages == [] then [] else Script(messages[0]) + Scripts(messages[1..])
  }

  lemma {:induction false} AfterBoth(c: Conversation, a: seq<Event>, b: seq<Event>)
    ensures After(c, a + b) == After(After(c, a), b)
    decreases |a|
  {
    hide Step;
    if a == [] {
      assert a + b == b;
    } else {
      assert (a + b)[0] == a[0] && (a + b)[1..] == a[1..] + b;
      AfterBoth(Step(c, a[0]), a[1..], b);
    }
  }

  lemma FourSteps(c: Conversation, a: Event, b: Event, d: Event, e: Event)
    ensures After(c, [a, b, d, e]) == Step(Step(Step(Step(c, a), b), d), e)
  {
    hide Step;
    assert [a, b, d, e][1..] == [b, d, e] && [b, d, e][1..] == [d, e] && [d, e][1..] == [e] && [e][1..] == [];
    var first := Step(c, a);
    assert After(c, [a, b, d, e]) == After(first, [b, d, e]);
    var second := Step(first, b);
    assert After(first, [b, d, e]) == After(second, [d, e]);
    assert After(second, [d, e]) == After(Step(second, d), [e]);
  }

  /** Begun and written in one go, a message is under way whole. */
  lemma BegunAndWritten(c: Conversation, m: Message)
    requires Quiet(c) && Serialized(m).Some?
    ensures Step(Step(c, Begin(m)), Write(|Serialized(m).value|))
      == c.(underWay := Serialized(m).value, sent := c.sent + [m])
  {
    hide Serialized;
    var b := Serialized(m).value;
    assert b[|b|..] == [] && [] + b[..|b|] == b;
  }

  /** Sixteen octets are the header; if there is a payload, the rest follows. */
  lemma HeaderThenPayload(c: Conversation, m: Message)
    requires Serialized(m).Some? && c.unwritten == [] && c.underWay == Serialized(m).value && c.partial == []
    ensures Step(Step(c, Read(16)), Read(|m.payload|)) == c.(underWay := [], got := c.got + [m])
  {
    hide Serialized, Outcome, AnnouncedSize;
    var b := Serialized(m).value;
    SizeIsExact(m);
    assert [] + b == b + [] && b[..16] == [] + b[..16];
    ReadsUpToMessage(m, [], b, [], 16);
    if m.payload == [] {
      assert b[..16] == b && b[16..] == [];
      NothingToRead(Step(c, Read(16)));
    } else {
      HeaderAnnounces(m, b[..16]);
      assert b[..16] + b[16..] == b + [];
      ReadsUpToMessage(m, b[..16], b[16..], [], |m.payload|);
      assert b[16..][..|m.payload|] == b[16..] && b[16..][|m.payload|..] == [];
    }
  }

  lemma SizeIsExact(m: Message)
    requires Serialized(m).Some?
    ensures |Serialized(m).value| == 16 + |m.payload|
  {
  }

  lemma NothingToRead(c: Conversation)
    requires c.underWay == [] && c.partial == []
    ensures forall n :: Step(c, Read(n)) == c
  {
    hide Outcome;
  }

  lemma OneGetsThrough(c: Conversation, m: Message)
    requires Quiet(c) && Serialized(m).Some?
    ensures After(c, Script(m)) == c.(sent := c.sent + [m], got := c.got + [m])
  {
    hide Step, Serialized;
    FourSteps(c, Begin(m), Write(|Serialized(m).value|), Read(16), Read(|m.payload|));
    BegunAndWritten(c, m);
    HeaderThenPayload(c.(underWay := Serialized(m).value, sent := c.sent + [m]), m);
  }

  /** Any messages that may be sent can be got through, all of them and in order. */
  lemma {:induction false} AllGetThrough(c: Conversation, messages: seq<Message>)
    requires Quiet(c) && forall i :: 0 <= i < |messages| ==> Serialized(messages[i]).Some?
    ensures After(c, Scripts(messages)) == c.(sent := c.sent + messages, got := c.got + messages)
    decreases |messages|
  {
    hide Serialized, Script, Step;
    if messages == [] {
      assert c.sent + [] == c.sent && c.got + [] == c.got;
    } else {
      var m, rest := messages[0], messages[1..];
      AfterBoth(c, Script(m), Scripts(rest));
      OneGetsThrough(c, m);
      AllGetThrough(c.(sent := c.sent + [m], got := c.got + [m]), rest);
      assert c.sent + [m] + rest == c.sent + messages && c.got + [m] + rest == c.got + messages;
    }
  }
}
