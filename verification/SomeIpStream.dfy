/** SOME/IP framing over a TCP stream that splits and merges sends and receives as it likes. */
module SomeIpStream {
  import opened Bytes
  import opened SomeIpMessage

  /** How a system call behaves: interrupted by a signal, failing for good, or moving at most `more + 1` octets. */
  datatype Call = Interrupted | Fails | Moves(more: nat)

  /**
   One direction of a connection: the octets under way, and a schedule of how the system calls behave. After
   the schedule ends, calls move all they can.
   */
  class Stream {
    var underWay: seq<Byte>
    var schedule: seq<Call>

    constructor (calls: seq<Call>)
      ensures underWay == [] && schedule == calls
    {
      underWay, schedule := [], calls;
    }

    predicate NoFailure()
      reads this
    {
      Fails !in schedule
    }

    /** The behaviour of the next call, which moves at most `wanted` octets. */
    method NextCall(wanted: nat) returns (call: Option<nat>, failed: bool)
      requires 0 < wanted
      modifies this`schedule
      ensures failed ==> call == None && !old(NoFailure())
      ensures old(NoFailure()) ==> NoFailure() && !failed
      ensures call.Some? ==> 0 < call.value <= wanted && |schedule| <= |old(schedule)|
      ensures call.None? ==> |schedule| < |old(schedule)|
    {
      if schedule == [] {
        return Some(wanted), false;
      }
      var first := schedule[0];
      schedule := schedule[1..];
      match first {
        case Interrupted => return None, false;
        case Fails => return None, true;
        case Moves(more) => return Some(if more + 1 < wanted then more + 1 else wanted), false;
      }
    }

    /** `recv`: -2 on an error, -1 when interrupted, 0 when the peer has closed, otherwise how much was received. */
    method Recv(wanted: nat) returns (received: int, data: seq<Byte>)
      requires 0 < wanted
      modifies this
      ensures -2 <= received && (old(NoFailure()) ==> NoFailure() && received != -2)
      ensures received < 0 ==> data == [] && underWay == old(underWay) && |schedule| < |old(schedule)|
      ensures received == 0 ==> old(underWay) == [] && underWay == [] && data == []
      ensures received > 0 ==>
        |data| == received <= wanted && old(underWay) == data + underWay && |schedule| <= |old(schedule)|
    {
      var call, failed := NextCall(wanted);
      if call.None? {
        return if failed then -2 else -1, [];
      }
      var n := if call.value < |underWay| then call.value else |underWay|;
      received, data := n, underWay[..n];
      underWay := underWay[n..];
    }

    /** `send`: -2 on an error or when nothing was taken, -1 when interrupted, otherwise how much was taken. */
    method SendSome(source: seq<Byte>) returns (sent: int)
      requires source != []
      modifies this
      ensures -2 <= sent != 0 && (old(NoFailure()) ==> NoFailure() && sent != -2)
      ensures sent < 0 ==> underWay == old(underWay) && |schedule| < |old(schedule)|
      ensures sent > 0 ==>
        sent <= |source| && underWay == old(underWay) + source[..sent] && |schedule| <= |old(schedule)|
    {
      var call, failed := NextCall(|source|);
      if call.None? {
        return if failed then -2 else -1;
      }
      sent := call.value;
      underWay := underWay + source[..sent];
    }

    /**
     Reads exactly `size` octets, however they arrive, or fails, because the peer closed before or a call
     failed; then the octets read so far are lost.
     */
    method ReadExact(size: nat) returns (r: Option<seq<Byte>>)
      modifies this
      ensures r.Some? ==>
        size <= |old(underWay)| && r.value == old(underWay)[..size] && underWay == old(underWay)[size..]
      ensures r.None? ==> exists n: nat :: n <= |old(underWay)| && n < size && underWay == old(underWay)[n..]
      ensures old(NoFailure()) ==> NoFailure() && (r.Some? <==> size <= |old(underWay)|)
      ensures old(NoFailure()) && r.None? ==> underWay == []
    {
      var data: seq<Byte> := [];
      while |data| < size
        invariant |data| <= size && old(underWay) == data + underWay
        invariant old(NoFailure()) ==> NoFailure()
        decreases size - |data|, |schedule|
      {
        var received, chunk := Recv(size - |data|);
        if received == 0 || received == -2 {
          assert underWay == old(underWay)[|data|..];
          return None;
        }
        if received > 0 {
          data := data + chunk;
        }
      }
      return Some(data);
    }

    /** Writes everything, however few octets each call takes; if a call fails, a first part. */
    method WriteAll(source: seq<Byte>) returns (written: Option<nat>)
      modifies this
      ensures written.Some? ==> underWay == old(underWay) + source && written.value == |source|
      ensures written.None? ==> exists n: nat :: n < |source| && underWay == old(underWay) + source[..n]
      ensures old(NoFailure()) ==> NoFailure() && written.Some?
    {
      var offset := 0;
      while offset < |source|
        invariant offset <= |source| && underWay == old(underWay) + source[..offset]
        invariant old(NoFailure()) ==> NoFailure()
        decreases |source| - offset, |schedule|
      {
        var sent := SendSome(source[offset..]);
        if sent == -2 {
          return None;
        }
        if sent > 0 {
          assert source[..offset] + source[offset..][..sent] == source[..offset + sent];
          offset := offset + sent;
        }
      }
      return Some(|source|);
    }

    method Send(m: Message) returns (r: Option<nat>)
      modifies this
      ensures Serialized(m).None? ==> r == None && underWay == old(underWay)
      ensures Serialized(m).Some? && r.Some? ==>
        r.value == |Serialized(m).value| && underWay == old(underWay) + Serialized(m).value
      ensures Serialized(m).Some? && r.None? ==>
        exists n: nat :: n < |Serialized(m).value| && underWay == old(underWay) + Serialized(m).value[..n]
      ensures old(NoFailure()) ==> NoFailure() && (r.Some? <==> Serialized(m).Some?)
    {
      var bytes := SerializeMessage(m);
      if bytes.None? {
        return None;
      }
      r := WriteAll(bytes.value);
    }

    /** Whatever is received is the next message; without failing calls every call receives it. */
    method Receive() returns (r: Option<Message>)
      modifies this
      ensures r.Some? || old(NoFailure()) ==> (r, underWay) == Received(old(underWay))
      ensures old(NoFailure()) ==> NoFailure()
    {
      hide Deserialized, GetU32Be;
      ghost var all := underWay;
      var header := ReadExact(HEADER_SIZE);
      if header.None? {
        return None;
      }
      var length := GetU32Be(header.value, 4);
      LengthInHeader(all);
      if length < LENGTH_BASE {
        return None;
      }
      var payloadSize := length - LENGTH_BASE;
      if payloadSize > MAX_PAYLOAD_SIZE - HEADER_SIZE {
        return None;
      }
      var payload := ReadExact(payloadSize);
      if payload.None? {
        return None;
      }
      assert header.value + payload.value == all[..HEADER_SIZE + payloadSize];
      return Deserialized(header.value + payload.value);
    }
  }

  lemma LengthInHeader(b: seq<Byte>)
    requires HEADER_SIZE <= |b|
    ensures GetU32Be(b[..HEADER_SIZE], 4) == GetU32Be(b, 4)
  {
  }

  /** The next message of a stream of octets, and the octets left. */
  function Received(b: seq<Byte>): (Option<Message>, seq<Byte>) {
    if |b| < HEADER_SIZE then (None, [])
    else
      var length := GetU32Be(b, 4);
      if length < LENGTH_BASE || length - LENGTH_BASE > MAX_PAYLOAD_SIZE - HEADER_SIZE then (None, b[HEADER_SIZE..])
      else
        var size := HEADER_SIZE + length - LENGTH_BASE;
        if |b| < size then (None, []) else (Deserialized(b[..size]), b[size..])
  }

  // ----- messages back to back -----

  /** Whatever is sent passes the receiver's size and header checks, and is received as it was sent. */
  lemma SentIsReceived(m: Message, rest: seq<Byte>)
    requires Serialized(m).Some?
    ensures Received(Serialized(m).value + rest) == (Some(m), rest)
  {
    hide PutU16Be, PutU32Be, GetU16Be, GetU32Be, HeaderBytes, TypeOf, CodeOf, Deserialized, HeaderAt;
    var b, length := Serialized(m).value, LENGTH_BASE + |m.payload|;
    HeaderFields(m.header, length, m.payload + rest);
    assert HeaderBytes(m.header, length) + (m.payload + rest) == b + rest;
    HeaderIsRead(b + rest, m.header, length);
    assert (b + rest)[..|b|] == b && (b + rest)[|b|..] == rest;
    ParseSerialized(m);
  }

  predicate AllSendable(messages: seq<Message>) {
    forall i :: 0 <= i < |messages| ==> Serialized(messages[i]).Some?
  }

  function Wire(messages: seq<Message>): seq<Byte>
    requires AllSendable(messages)
  {
    if messages == [] then [] else Serialized(messages[0]).value + Wire(messages[1..])
  }

  /** A message put before the writer, some octets written, some octets read. */
  datatype Event = Begin(message: Message) | Write(most: nat) | Read(most: nat)

  /**
   Both ends at work: the octets of the message being sent that are not yet written, the octets under way, the
   octets of the message being received that are already read, and everything sent and received so far.
   */
  datatype Conversation = Conversation(
    unwritten: seq<Byte>, underWay: seq<Byte>, partial: seq<Byte>, sent: seq<Message>, got: seq<Message>)

  const SILENCE := Conversation([], [], [], [], [])

  function Min(a: nat, b: nat): nat {
    if a < b then a else b
  }

  /** The size a header announces, unless the receiver refuses it. */
  function AnnouncedSize(header: seq<Byte>): Option<nat>
    requires HEADER_SIZE <= |header|
  {
    var length := GetU32Be(header, 4);
    if length < LENGTH_BASE || length - LENGTH_BASE > MAX_PAYLOAD_SIZE - HEADER_SIZE then None
    else Some(HEADER_SIZE + length - LENGTH_BASE)
  }

  /** How many octets the receiver asks for: the rest of the header, then the rest of the payload. */
  function Wanted(partial: seq<Byte>): nat {
    if |partial| < HEADER_SIZE then HEADER_SIZE - |partial|
    else
      var size := AnnouncedSize(partial);
      if size.Some? && |partial| < size.value then size.value - |partial| else 0
  }

  /** What the receiver returns once it wants nothing more. */
  function Outcome(partial: seq<Byte>): Option<Message> {
    if |partial| < HEADER_SIZE || AnnouncedSize(partial).None? then None else Deserialized(partial)
  }

  /** A frame read until nothing more is wanted gives what a call that finds it whole receives. */
  lemma OutcomeIsReceived(frame: seq<Byte>, rest: seq<Byte>)
    requires HEADER_SIZE <= |frame|
    requires AnnouncedSize(frame) == Some(|frame|) || (AnnouncedSize(frame) == None && |frame| == HEADER_SIZE)
    ensures Wanted(frame) == 0 && Received(frame + rest) == (Outcome(frame), rest)
  {
    hide Deserialized, GetU32Be;
    LengthInHeader(frame + rest);
    LengthInHeader(frame);
    assert (frame + rest)[..HEADER_SIZE] == frame[..HEADER_SIZE];
    assert (frame + rest)[..|frame|] == frame && (frame + rest)[|frame|..] == rest;
  }

  /** A message is begun when the one before it is written; writing and reading move any number of octets. */
  function Step(c: Conversation, e: Event): Conversation {
    match e
    case Begin(m) =>
      if c.unwritten != [] || Serialized(m).None? then c
      else c.(unwritten := Serialized(m).value, sent := c.sent + [m])
    case Write(most) =>
      var n := Min(most, |c.unwritten|);
      c.(unwritten := c.unwritten[n..], underWay := c.underWay + c.unwritten[..n])
    case Read(most) =>
      var n := Min(most, Min(Wanted(c.partial), |c.underWay|));
      var partial := c.partial + c.underWay[..n];
      if Wanted(partial) != 0 then c.(underWay := c.underWay[n..], partial := partial)
      else
        var m := Outcome(partial);
        c.(underWay := c.underWay[n..], partial := [], got := c.got + if m.None? then [] else [m.value])
  }

  function After(c: Conversation, events: seq<Event>): Conversation
    decreases |events|
  {
    if events == [] then c else After(Step(c, events[0]), events[1..])
  }

  /**
   What was received is the first part of what was sent; and the octets read of the next message, those under
   way and those not yet written are, in this order, the messages after it.
   */
  ghost predicate InOrder(c: Conversation) {
    && AllSendable(c.sent) && |c.got| <= |c.sent|
    && c.got == c.sent[..|c.got|]
    && c.partial + c.underWay + c.unwritten == Wire(c.sent[|c.got|..])
    && Wanted(c.partial) != 0
  }

  lemma {:induction false} WireOfMore(messages: seq<Message>, m: Message)
    requires AllSendable(messages) && Serialized(m).Some?
    ensures AllSendable(messages + [m]) && Wire(messages + [m]) == Wire(messages) + Serialized(m).value
    decreases |messages|
  {
    hide Serialized;
    if messages == [] {
      assert ([m])[1..] == [];
      assert messages + [m] == [m];
    } else {
      WireOfMore(messages[1..], m);
      assert (messages + [m])[1..] == messages[1..] + [m];
    }
  }

  /** The header of a sent message announces its size. */
  lemma HeaderAnnounces(m: Message, part: seq<Byte>)
    requires Serialized(m).Some? && HEADER_SIZE <= |part|
    requires HEADER_SIZE <= |Serialized(m).value| && part[..HEADER_SIZE] == Serialized(m).value[..HEADER_SIZE]
    ensures AnnouncedSize(part) == Some(|Serialized(m).value|)
  {
    hide PutU16Be, PutU32Be, GetU16Be, GetU32Be, HeaderBytes, TypeOf, CodeOf, Deserialized, HeaderAt;
    var b, length := Serialized(m).value, LENGTH_BASE + |m.payload|;
    HeaderFields(m.header, length, m.payload);
    HeaderIsRead(b, m.header, length);
    LengthInHeader(b);
    LengthInHeader(part);
  }

  lemma SizeOfSent(m: Message)
    requires Serialized(m).Some?
    ensures HEADER_SIZE <= |Serialized(m).value|
  {
  }

  /** The receiver never reads beyond the message it is at, and returns it when it is complete. */
  lemma ReadsUpToMessage(m: Message, partial: seq<Byte>, waiting: seq<Byte>, rest: seq<Byte>, n: nat)
    requires Serialized(m).Some? && partial + waiting == Serialized(m).value + rest
    requires n <= Wanted(partial) != 0 && n <= |waiting|
    ensures var b, next := Serialized(m).value, partial + waiting[..n];
      && |next| <= |b| && next + waiting[n..] == b + rest
      && (Wanted(next) == 0 <==> next == b) && (Wanted(next) == 0 ==> Outcome(next) == Some(m) && waiting[n..] == rest)
  {
    hide Serialized, AnnouncedSize, Deserialized;
    var b, next := Serialized(m).value, partial + waiting[..n];
    SizeOfSent(m);
    assert next + waiting[n..] == partial + waiting;
    if HEADER_SIZE <= |next| {
      assert next[..HEADER_SIZE] == (b + rest)[..HEADER_SIZE] == b[..HEADER_SIZE];
      HeaderAnnounces(m, next);
    }
    if HEADER_SIZE <= |partial| {
      assert partial[..HEADER_SIZE] == (b + rest)[..HEADER_SIZE] == b[..HEADER_SIZE];
      HeaderAnnounces(m, partial);
    }
    assert |next| == |b| ==> next == b by {
      assert next == (next + waiting[n..])[..|next|];
    }
    assert (next + waiting[n..])[|next|..] == waiting[n..] && (b + rest)[|b|..] == rest;
    ParseSerialized(m);
  }

  lemma BeginKeepsOrder(c: Conversation, m: Message)
    requires InOrder(c)
    ensures InOrder(Step(c, Begin(m)))
  {
    hide Serialized, Wanted;
    if c.unwritten == [] && Serialized(m).Some? {
      var waiting := c.sent[|c.got|..];
      WireOfMore(waiting, m);
      assert (c.sent + [m])[|c.got|..] == waiting + [m];
      assert (c.sent + [m])[..|c.got|] == c.got;
      assert c.partial + c.underWay + [] == c.partial + c.underWay;
    }
  }

  lemma WriteKeepsOrder(c: Conversation, most: nat)
    requires InOrder(c)
    ensures InOrder(Step(c, Write(most)))
  {
    hide Serialized, Wanted, Wire;
    var n := Min(most, |c.unwritten|);
    assert c.unwritten == c.unwritten[..n] + c.unwritten[n..];
    assert c.partial + (c.underWay + c.unwritten[..n]) + c.unwritten[n..] == c.partial + c.underWay + c.unwritten;
  }

  lemma ReadKeepsOrder(c: Conversation, most: nat)
    requires InOrder(c)
    ensures InOrder(Step(c, Read(most)))
  {
    hide Serialized, Wanted, Outcome;
    var waiting := c.sent[|c.got|..];
    var n := Min(most, Min(Wanted(c.partial), |c.underWay|));
    var ahead := c.underWay + c.unwritten;
    var next := c.partial + c.underWay[..n];
    assert c.partial + ahead == Wire(waiting);
    assert ahead[..n] == c.underWay[..n] && ahead[n..] == c.underWay[n..] + c.unwritten;
    NothingIsPartial();
    if waiting == [] {
      assert next == [] && c.underWay[n..] == [];
    } else {
      ReadsUpToMessage(waiting[0], c.partial, ahead, Wire(waiting[1..]), n);
      assert next + ahead[n..] == Wire(waiting);
      if Wanted(next) == 0 {
        assert c.got + [waiting[0]] == c.sent[..|c.got| + 1] && waiting[1..] == c.sent[|c.got| + 1..];
        assert ahead[n..] == Wire(waiting[1..]);
        assert [] + c.underWay[n..] + c.unwritten == ahead[n..];
      } else {
        assert next + c.underWay[n..] + c.unwritten == next + ahead[n..];
      }
    }
  }

  lemma NothingIsPartial()
    ensures Wanted([]) != 0
  {
  }

  /**
   However sends and receives interleave, and however the system calls split the octets, messages come out in
   order, unchanged, and none is lost or made up.
   */
  lemma {:induction false} ConversationInOrder(events: seq<Event>)
    ensures InOrder(After(SILENCE, events))
  {
    RunInOrder(SILENCE, events);
  }

  lemma {:induction false} RunInOrder(c: Conversation, events: seq<Event>)
    requires InOrder(c)
    ensures InOrder(After(c, events))
    decreases |events|
  {
    hide InOrder, Step;
    if events != [] {
      match events[0] {
        case Begin(m) => BeginKeepsOrder(c, m);
        case Write(most) => WriteKeepsOrder(c, most);
        case Read(most) => ReadKeepsOrder(c, most);
      }
      RunInOrder(Step(c, events[0]), events[1..]);
    }
  }

  /** Once nothing is left to write or read, everything sent has been received. */
  lemma AllIsReceived(c: Conversation)
    requires InOrder(c) && c.unwritten == [] && c.underWay == []
    ensures c.got == c.sent && c.partial == []
  {
    hide Serialized, AnnouncedSize;
    var waiting := c.sent[|c.got|..];
    assert c.partial + c.underWay + c.unwritten == c.partial;
    if waiting != [] {
      var b := Serialized(waiting[0]).value;
      SizeOfSent(waiting[0]);
      assert c.partial[..HEADER_SIZE] == b[..HEADER_SIZE];
      HeaderAnnounces(waiting[0], c.partial);
      assert false;
    }
  }
}
