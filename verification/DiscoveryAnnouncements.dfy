/** Which announcements are accepted, and which of their parameters decide what is made of them. */
module DiscoveryAnnouncements {
  import opened Bytes
  import opened RtpsMessage
  import opened ServiceTypes
  import opened ParameterList
  import opened DiscoveryValues
  import S = SedpEndpoint
  import P = SpdpParticipant

  // ----- the last parameter of a kind -----

  /** The value of the last parameter with the id. */
  function LastValue(params: seq<Parameter>, id: U16): Option<seq<Byte>> {
    if params == [] then None
    else
      var later := LastValue(params[1..], id);
      if later.Some? then later else if params[0].id == id then Some(params[0].value) else None
  }

  ghost predicate IsLast(params: seq<Parameter>, id: U16, i: int) {
    0 <= i < |params| && params[i].id == id && forall j :: i < j < |params| ==> params[j].id != id
  }

  lemma {:induction false} LastValueIsLast(params: seq<Parameter>, id: U16, i: int)
    requires IsLast(params, id, i)
    ensures LastValue(params, id) == Some(params[i].value)
    decreases |params|
  {
    assert forall j :: 0 <= j < |params| - 1 ==> params[1..][j] == params[j + 1];
    if i > 0 {
      LastValueIsLast(params[1..], id, i - 1);
    } else {
      NoLastValue(params[1..], id);
    }
  }

  lemma {:induction false} NoLastValue(params: seq<Parameter>, id: U16)
    ensures LastValue(params, id).None? <==> forall j :: 0 <= j < |params| ==> params[j].id != id
    decreases |params|
  {
    if params != [] {
      NoLastValue(params[1..], id);
      assert forall j :: 0 <= j < |params| - 1 ==> params[1..][j] == params[j + 1];
      assert forall j :: 0 < j < |params| ==> params[j] == params[1..][j - 1];
    }
  }

  /** Whether a step takes the parameter does not depend on the state. */
  ghost predicate Judges<T(!new)>(step: (T, Parameter) -> Option<T>, ok: Parameter -> bool) {
    forall s: T, p: Parameter :: step(s, p).Some? <==> ok(p)
  }

  lemma {:induction false} AllAreJudged<T(!new)>(
    step: (T, Parameter) -> Option<T>, ok: Parameter -> bool, s: T, params: seq<Parameter>)
    requires Judges(step, ok)
    ensures Decoded(step, Some(s), params).Some? <==> forall p <- params :: ok(p)
    decreases |params|
  {
    if params != [] {
      var first, rest := params[0], params[1..];
      assert params == [first] + rest;
      if ok(first) {
        AllAreJudged(step, ok, step(s, first).value, rest);
      } else {
        NothingAfterRefusal(step, rest);
      }
    }
  }

  /** A step reads the field from the parameters with the id, and leaves it alone otherwise. */
  ghost predicate ReadsField<T(!new), F(!new)>(
    step: (T, Parameter) -> Option<T>, get: T -> Option<F>, read: seq<Byte> -> Option<F>, id: U16)
  {
    forall s: T, p: Parameter :: step(s, p).Some? ==>
      && get(step(s, p).value) == (if p.id == id then read(p.value) else get(s))
      && (p.id == id ==> read(p.value).Some?)
  }

  /** So after a list that was taken the field is read from the last parameter with the id, if there is one. */
  lemma {:induction false} FieldIsFromLast<T(!new), F(!new)>(
    step: (T, Parameter) -> Option<T>, get: T -> Option<F>, read: seq<Byte> -> Option<F>, id: U16, s: T,
    params: seq<Parameter>)
    requires ReadsField(step, get, read, id) && Decoded(step, Some(s), params).Some?
    ensures var last := LastValue(params, id);
      && get(Decoded(step, Some(s), params).value) == (if last.Some? then read(last.value) else get(s))
      && (last.Some? ==> read(last.value).Some?)
    decreases |params|
  {
    if params != [] {
      if step(s, params[0]).Some? {
        FieldIsFromLast(step, get, read, id, step(s, params[0]).value, params[1..]);
      } else {
        NothingAfterRefusal(step, params[1..]);
      }
    }
  }

  // ----- values -----

  /** A name as it is printed: its length with the final zero, its characters, and the zero. */
  predicate IsName(value: seq<Byte>, name: Name) {
    |name| + 1 < U32_MODULUS && value == PutU32Le(|name| + 1) + name + [0]
  }

  lemma NameIsRead(value: seq<Byte>, name: Name)
    ensures S.ReadString(value) == Some(name) <==> IsName(value, name)
  {
    hide PutU32Le, GetU32Le;
    if S.ReadString(value) == Some(name) {
      WriteU32Le(value, 0);
      assert value == value[0..4] + value[4..|value| - 1] + [value[|value| - 1]];
    }
    if IsName(value, name) {
      assert value[0..4] == PutU32Le(|name| + 1);
      ReadU32Le(value, 0, |name| + 1);
      assert value[4..4 + |name|] == name;
    }
  }

  lemma LocatorIsRead(value: seq<Byte>, l: Locator)
    ensures ReadLocator(value) == Some(l) <==> value == LocatorValue(l)
  {
    hide PutU32Le, GetU32Le, Zeros;
    if ReadLocator(value) == Some(l) {
      WriteU32Le(value, 0);
      WriteU32Le(value, 4);
      assert value == value[0..4] + value[4..8] + value[8..20] + value[20..24];
    }
    if value == LocatorValue(l) {
      LocatorRoundTrip(l);
    }
  }

  lemma WordIsRead(value: seq<Byte>, v: U32)
    ensures |value| == 4 && GetU32Le(value, 0) == v <==> value == PutU32Le(v)
  {
    hide PutU32Le, GetU32Le;
    if |value| == 4 {
      WriteU32Le(value, 0);
      assert value[0..4] == value;
    }
    U32RoundTrip(v);
  }

  // ----- SEDP -----

  /** The value is one that is printed for its kind of parameter; unknown kinds may hold anything. */
  ghost predicate SedpWellFormed(p: Parameter) {
    && (p.id == 0x005A ==> |p.value| == 16 && p.value[12..] != [0, 0, 0, 0])
    && (p.id in [0x0005, 0x0007] ==> exists name :: IsName(p.value, name))
    && (p.id == 0x002F ==> exists l :: p.value == LocatorValue(l))
    && (p.id == 0x001A ==> p.value in [PutU32Le(1), PutU32Le(3)])
    && (p.id == 0x001D ==> p.value in [PutU32Le(0), PutU32Le(1)])
  }

  lemma ReadsName(value: seq<Byte>)
    ensures S.ReadString(value).Some? <==> exists name :: IsName(value, name)
  {
    hide S.ReadString, IsName;
    forall name
      ensures S.ReadString(value) == Some(name) <==> IsName(value, name)
    {
      NameIsRead(value, name);
    }
  }

  lemma ReadsLocator(value: seq<Byte>)
    ensures ReadLocator(value).Some? <==> exists l :: value == LocatorValue(l)
  {
    hide ReadLocator, LocatorValue;
    forall l
      ensures ReadLocator(value) == Some(l) <==> value == LocatorValue(l)
    {
      LocatorIsRead(value, l);
    }
  }

  lemma WellFormedIsAccepted(p: Parameter)
    ensures S.Accepts(p) <==> SedpWellFormed(p)
  {
    hide S.ReadString, ReadLocator, LocatorValue, IsName, PutU32Le, GetU32Le;
    ReadsName(p.value);
    ReadsLocator(p.value);
    WordIsRead(p.value, 0);
    WordIsRead(p.value, 1);
    WordIsRead(p.value, 3);
    assert |p.value| == 16 ==> p.value[12..16] == p.value[12..];
  }

  lemma SedpJudges()
    ensures Judges(S.ParseParameter, S.Accepts)
  {
    hide S.Accepts, S.Stored;
  }

  function ReadGuid(value: seq<Byte>): Option<(GuidPrefix, EntityId)> {
    if |value| != 16 then None else Some((value[..12], value[12..16]))
  }

  function ReadWord(value: seq<Byte>): Option<U32> {
    if |value| != 4 then None else Some(GetU32Le(value, 0))
  }

  lemma SedpReads()
    ensures ReadsField(S.ParseParameter, (s: S.ParseState) => s.guid, ReadGuid, 0x005A)
    ensures ReadsField(S.ParseParameter, (s: S.ParseState) => s.topic, S.ReadString, 0x0005)
    ensures ReadsField(S.ParseParameter, (s: S.ParseState) => s.typeName, S.ReadString, 0x0007)
    ensures ReadsField(S.ParseParameter, (s: S.ParseState) => s.locator, ReadLocator, 0x002F)
    ensures ReadsField(S.ParseParameter, (s: S.ParseState) => s.reliability, ReadWord, 0x001A)
    ensures ReadsField(S.ParseParameter, (s: S.ParseState) => s.durability, ReadWord, 0x001D)
  {
    hide S.ReadString, ReadLocator, GetU32Le;
  }

  /** The fields as they are printed, of a list that was taken. */
  lemma SedpFields(params: seq<Parameter>)
    requires Decoded(S.ParseParameter, Some(S.NOTHING_SEEN), params).Some?
    ensures var s := Decoded(S.ParseParameter, Some(S.NOTHING_SEEN), params).value;
      && (s.guid.Some? <==> Has(params, 0x005A)) && (s.topic.Some? <==> Has(params, 0x0005))
      && (s.typeName.Some? <==> Has(params, 0x0007)) && (s.locator.Some? <==> Has(params, 0x002F))
      && (s.reliability.Some? <==> Has(params, 0x001A)) && (s.durability.Some? <==> Has(params, 0x001D))
      && (s.guid.Some? ==> LastValue(params, 0x005A) == Some(s.guid.value.0 + s.guid.value.1))
      && (s.topic.Some? ==> IsName(LastValue(params, 0x0005).value, s.topic.value))
      && (s.typeName.Some? ==> IsName(LastValue(params, 0x0007).value, s.typeName.value))
      && (s.locator.Some? ==> LastValue(params, 0x002F) == Some(LocatorValue(s.locator.value)))
      && (s.reliability.Some? ==> LastValue(params, 0x001A) == Some(PutU32Le(s.reliability.value)))
      && (s.durability.Some? ==> LastValue(params, 0x001D) == Some(PutU32Le(s.durability.value)))
  {
    hide Decoded, S.ParseParameter, ReadsField, IsName, LastValue, PutU32Le, GetU32Le, LocatorValue, ReadLocator;
    hide S.ReadString;
    SedpReads();
    var start, step := S.NOTHING_SEEN, S.ParseParameter;
    var s := Decoded(step, Some(start), params).value;
    FieldIsFromLast(step, (s: S.ParseState) => s.guid, ReadGuid, 0x005A, start, params);
    FieldIsFromLast(step, (s: S.ParseState) => s.topic, S.ReadString, 0x0005, start, params);
    FieldIsFromLast(step, (s: S.ParseState) => s.typeName, S.ReadString, 0x0007, start, params);
    FieldIsFromLast(step, (s: S.ParseState) => s.locator, ReadLocator, 0x002F, start, params);
    FieldIsFromLast(step, (s: S.ParseState) => s.reliability, ReadWord, 0x001A, start, params);
    FieldIsFromLast(step, (s: S.ParseState) => s.durability, ReadWord, 0x001D, start, params);
    if s.topic.Some? {
      NameIsRead(LastValue(params, 0x0005).value, s.topic.value);
    }
    if s.typeName.Some? {
      NameIsRead(LastValue(params, 0x0007).value, s.typeName.value);
    }
    if s.locator.Some? {
      LocatorIsRead(LastValue(params, 0x002F).value, s.locator.value);
    }
    if s.reliability.Some? {
      WordIsRead(LastValue(params, 0x001A).value, s.reliability.value);
    }
    if s.durability.Some? {
      WordIsRead(LastValue(params, 0x001D).value, s.durability.value);
    }
    GuidIsRead(LastValue(params, 0x005A));
  }

  lemma GuidIsRead(value: Option<seq<Byte>>)
    ensures value.Some? && ReadGuid(value.value).Some? ==>
      var g := ReadGuid(value.value).value; value.value == g.0 + g.1
  {
  }

  predicate Has(params: seq<Parameter>, id: U16) {
    LastValue(params, id).Some?
  }

  /**
   A printed list of parameters is accepted as an endpoint exactly if each of them is well formed and each of
   the six kinds is there; every field is then what the last parameter of its kind says.
   */
  lemma SedpAnswer(params: seq<Parameter>, junk: seq<Byte>)
    requires AllPrintable(params)
    ensures var r := S.Deserialized(ListBytes(params) + junk);
      && (r.Some? <==>
            && (forall p <- params :: SedpWellFormed(p))
            && Has(params, 0x005A) && Has(params, 0x0005) && Has(params, 0x0007) && Has(params, 0x002F)
            && Has(params, 0x001A) && Has(params, 0x001D))
      && (r.Some? ==>
            && LastValue(params, 0x005A) == Some(r.value.guidPrefix + r.value.endpointId)
            && IsName(LastValue(params, 0x0005).value, r.value.topicName)
            && IsName(LastValue(params, 0x0007).value, r.value.typeName)
            && LastValue(params, 0x002F) == Some(LocatorValue(r.value.locator))
            && LastValue(params, 0x001A) == Some(PutU32Le(r.value.reliabilityKind))
            && LastValue(params, 0x001D) == Some(PutU32Le(r.value.durabilityKind)))
  {
    hide AllPrintable, ListBytes, WalkedPayload, Decoded, S.ParseParameter, S.Accepts, ReadsField, Judges, IsName;
    hide SedpWellFormed, LastValue, PutU32Le, LocatorValue;
    PayloadDecodes(S.ParseParameter, S.NOTHING_SEEN, params, junk);
    SedpJudges();
    AllAreJudged(S.ParseParameter, S.Accepts, S.NOTHING_SEEN, params);
    forall p <- params
      ensures S.Accepts(p) <==> SedpWellFormed(p)
    {
      WellFormedIsAccepted(p);
    }
    if Decoded(S.ParseParameter, Some(S.NOTHING_SEEN), params).Some? {
      SedpFields(params);
    }
  }

  // ----- SPDP -----

  /** The value holds the seconds and nanoseconds. */
  predicate IsDuration(value: seq<Byte>, seconds: U32, nanos: U32) {
    value == PutU32Le(seconds) + PutU32Le(nanos)
  }

  /** A duration is taken up to 4294967 seconds, and comes to milliseconds modulo 2^32. */
  lemma DurationIsRead(value: seq<Byte>, seconds: U32, nanos: U32)
    requires IsDuration(value, seconds, nanos)
    ensures P.ReadDuration(value) ==
      if seconds > 4_294_967 then None else Some((seconds as int * 1000 + nanos / 1_000_000) % 0x1_0000_0000)
  {
    hide PutU32Le, GetU32Le;
    assert value[0..4] == PutU32Le(seconds) && value[4..8] == PutU32Le(nanos);
    ReadU32Le(value, 0, seconds);
    ReadU32Le(value, 4, nanos);
  }

  lemma EightOctetsAreDuration(value: seq<Byte>)
    requires |value| == 8
    ensures IsDuration(value, GetU32Le(value, 0), GetU32Le(value, 4))
  {
    hide PutU32Le, GetU32Le;
    WriteU32Le(value, 0);
    WriteU32Le(value, 4);
    assert value == value[0..4] + value[4..8];
  }

  ghost predicate SpdpWellFormed(p: Parameter) {
    && (p.id == 0x0015 ==> |p.value| == 4 && p.value[..2] == [2, 3])
    && (p.id == 0x0016 ==> |p.value| == 4 && p.value[..2] != [0, 0])
    && (p.id == 0x0050 ==> |p.value| == 16 && p.value[12..] == [0x00, 0x00, 0x01, 0xC1])
    && (p.id in [0x0031, 0x0032] ==> exists l :: p.value == LocatorValue(l))
    && (p.id == 0x0058 ==> |p.value| == 4)
    && (p.id == 0x0002 ==> exists s: U32, n: U32 :: s <= 4_294_967 && IsDuration(p.value, s, n))
  }

  lemma ReadsDuration(value: seq<Byte>)
    ensures P.ReadDuration(value).Some? <==> exists s: U32, n: U32 :: s <= 4_294_967 && IsDuration(value, s, n)
  {
    hide IsDuration, GetU32Le;
    if P.ReadDuration(value).Some? {
      EightOctetsAreDuration(value);
    }
    if s: U32, n: U32 :| s <= 4_294_967 && IsDuration(value, s, n) {
      DurationIsRead(value, s, n);
    }
  }

  lemma SpdpWellFormedIsAccepted(p: Parameter)
    ensures P.Accepts(p) <==> SpdpWellFormed(p)
  {
    hide P.ReadDuration, ReadLocator, LocatorValue, IsDuration, GetU32Le;
    ReadsLocator(p.value);
    ReadsDuration(p.value);
    if |p.value| == 16 {
      assert p.value[12..16] == p.value[12..];
    }
    if |p.value| == 4 {
      assert p.value[..2] == [p.value[0], p.value[1]];
    }
  }

  lemma SpdpJudges()
    ensures Judges(P.ParseParameter, P.Accepts)
  {
    hide P.Accepts, P.Stored;
  }

  function ReadVersion(value: seq<Byte>): Option<bool> {
    Some(true)
  }

  function ReadVendor(value: seq<Byte>): Option<VendorId> {
    if |value| != 4 then None else Some(value[..2])
  }

  function ReadPrefix(value: seq<Byte>): Option<GuidPrefix> {
    if |value| != 16 then None else Some(value[..12])
  }

  function SeenVersion(s: P.ParseState): Option<bool> {
    if s.versionSeen then Some(true) else None
  }

  lemma SpdpReads()
    ensures ReadsField(P.ParseParameter, SeenVersion, ReadVersion, 0x0015)
    ensures ReadsField(P.ParseParameter, (s: P.ParseState) => s.vendorId, ReadVendor, 0x0016)
    ensures ReadsField(P.ParseParameter, (s: P.ParseState) => s.guidPrefix, ReadPrefix, 0x0050)
    ensures ReadsField(P.ParseParameter, (s: P.ParseState) => s.metatraffic, ReadLocator, 0x0032)
    ensures ReadsField(P.ParseParameter, (s: P.ParseState) => s.ordinaryLocator, ReadLocator, 0x0031)
    ensures ReadsField(P.ParseParameter, (s: P.ParseState) => s.endpointSet, ReadWord, 0x0058)
    ensures ReadsField(P.ParseParameter, (s: P.ParseState) => s.lease, P.ReadDuration, 0x0002)
  {
    hide P.ReadDuration, ReadLocator, GetU32Le;
  }

  predicate StartsWith(value: seq<Byte>, prefix: seq<Byte>) {
    prefix <= value
  }

  /** The value names the lease, in milliseconds. */
  ghost predicate IsLease(value: seq<Byte>, ms: U32) {
    exists s: U32, n: U32 :: (
      s <= 4_294_967 && IsDuration(value, s, n) && ms == (s as int * 1000 + n / 1_000_000) % 0x1_0000_0000)
  }

  lemma LeaseIsRead(value: seq<Byte>)
    requires P.ReadDuration(value).Some?
    ensures IsLease(value, P.ReadDuration(value).value)
  {
    hide IsDuration, GetU32Le;
    EightOctetsAreDuration(value);
    DurationIsRead(value, GetU32Le(value, 0), GetU32Le(value, 4));
  }

  lemma SpdpFields(params: seq<Parameter>)
    requires Decoded(P.ParseParameter, Some(P.NOTHING_SEEN), params).Some?
    ensures var s := Decoded(P.ParseParameter, Some(P.NOTHING_SEEN), params).value;
      && (s.versionSeen <==> Has(params, 0x0015)) && (s.vendorId.Some? <==> Has(params, 0x0016))
      && (s.guidPrefix.Some? <==> Has(params, 0x0050)) && (s.metatraffic.Some? <==> Has(params, 0x0032))
      && (s.ordinaryLocator.Some? <==> Has(params, 0x0031)) && (s.endpointSet.Some? <==> Has(params, 0x0058))
      && (s.lease.Some? <==> Has(params, 0x0002))
      && (s.vendorId.Some? ==> StartsWith(LastValue(params, 0x0016).value, s.vendorId.value))
      && (s.guidPrefix.Some? ==> StartsWith(LastValue(params, 0x0050).value, s.guidPrefix.value))
      && (s.metatraffic.Some? ==> LastValue(params, 0x0032) == Some(LocatorValue(s.metatraffic.value)))
      && (s.ordinaryLocator.Some? ==> LastValue(params, 0x0031) == Some(LocatorValue(s.ordinaryLocator.value)))
      && (s.endpointSet.Some? ==> LastValue(params, 0x0058) == Some(PutU32Le(s.endpointSet.value)))
      && (s.lease.Some? ==> IsLease(LastValue(params, 0x0002).value, s.lease.value))
  {
    hide Decoded, P.ParseParameter, ReadsField, LastValue, PutU32Le, GetU32Le, LocatorValue, ReadLocator;
    hide P.ReadDuration, IsLease;
    SpdpReads();
    var start, step := P.NOTHING_SEEN, P.ParseParameter;
    var s := Decoded(step, Some(start), params).value;
    FieldIsFromLast(step, SeenVersion, ReadVersion, 0x0015, start, params);
    FieldIsFromLast(step, (s: P.ParseState) => s.vendorId, ReadVendor, 0x0016, start, params);
    FieldIsFromLast(step, (s: P.ParseState) => s.guidPrefix, ReadPrefix, 0x0050, start, params);
    FieldIsFromLast(step, (s: P.ParseState) => s.metatraffic, ReadLocator, 0x0032, start, params);
    FieldIsFromLast(step, (s: P.ParseState) => s.ordinaryLocator, ReadLocator, 0x0031, start, params);
    FieldIsFromLast(step, (s: P.ParseState) => s.endpointSet, ReadWord, 0x0058, start, params);
    FieldIsFromLast(step, (s: P.ParseState) => s.lease, P.ReadDuration, 0x0002, start, params);
    if s.metatraffic.Some? {
      LocatorIsRead(LastValue(params, 0x0032).value, s.metatraffic.value);
    }
    if s.ordinaryLocator.Some? {
      LocatorIsRead(LastValue(params, 0x0031).value, s.ordinaryLocator.value);
    }
    if s.endpointSet.Some? {
      WordIsRead(LastValue(params, 0x0058).value, s.endpointSet.value);
    }
    if s.lease.Some? {
      LeaseIsRead(LastValue(params, 0x0002).value);
    }
  }

  /** The same for a participant and its seven kinds; unlike a printer's, its endpoint set and lease may be zero. */
  lemma SpdpAnswer(params: seq<Parameter>, junk: seq<Byte>)
    requires AllPrintable(params)
    ensures var r := P.Deserialized(ListBytes(params) + junk);
      && (r.Some? <==>
            && (forall p <- params :: SpdpWellFormed(p))
            && Has(params, 0x0015) && Has(params, 0x0016) && Has(params, 0x0050) && Has(params, 0x0032)
            && Has(params, 0x0031) && Has(params, 0x0058) && Has(params, 0x0002))
      && (r.Some? ==>
            && StartsWith(LastValue(params, 0x0016).value, r.value.vendorId)
            && StartsWith(LastValue(params, 0x0050).value, r.value.guidPrefix)
            && LastValue(params, 0x0032) == Some(LocatorValue(r.value.metatrafficLocator))
            && LastValue(params, 0x0031) == Some(LocatorValue(r.value.defaultLocator))
            && LastValue(params, 0x0058) == Some(PutU32Le(r.value.builtinEndpointSet))
            && IsLease(LastValue(params, 0x0002).value, r.value.leaseDurationMs))
  {
    hide AllPrintable, ListBytes, WalkedPayload, Decoded, P.ParseParameter, P.Accepts, ReadsField, Judges, IsLease;
    hide SpdpWellFormed, LastValue, PutU32Le, LocatorValue;
    PayloadDecodes(P.ParseParameter, P.NOTHING_SEEN, params, junk);
    SpdpJudges();
    AllAreJudged(P.ParseParameter, P.Accepts, P.NOTHING_SEEN, params);
    forall p <- params
      ensures P.Accepts(p) <==> SpdpWellFormed(p)
    {
      SpdpWellFormedIsAccepted(p);
    }
    if Decoded(P.ParseParameter, Some(P.NOTHING_SEEN), params).Some? {
      SpdpFields(params);
    }
  }

  // ----- what is printed -----

  /** An endpoint is announced exactly if it is named, its policies are known and its names fit, by six parameters. */
  lemma SedpPrints(e: S.Endpoint)
    ensures S.Serialized(e).Some? <==>
      && e.endpointId != [0, 0, 0, 0] && e.reliabilityKind in {1, 3} && e.durabilityKind in {0, 1}
      && 1 <= |e.topicName| <= 65530 && 1 <= |e.typeName| <= 65530
    ensures S.Serialized(e).Some? ==> S.Serialized(e).value == ListBytes(
      [Parameter(0x005A, e.guidPrefix + e.endpointId),
       Parameter(0x0005, PutU32Le(|e.topicName| + 1) + e.topicName + [0]),
       Parameter(0x0007, PutU32Le(|e.typeName| + 1) + e.typeName + [0]),
       Parameter(0x002F, PutU32Le(1) + PutU32Le(e.locator.port) + Zeros(12) + e.locator.address),
       Parameter(0x001A, PutU32Le(e.reliabilityKind)),
       Parameter(0x001D, PutU32Le(e.durabilityKind))])
  {
    hide ListBytes, PutU32Le;
  }

  /** A participant is announced exactly if it names a vendor and neither endpoint set nor lease is zero, by seven. */
  lemma SpdpPrints(p: P.Participant)
    ensures P.Serialized(p).Some? <==> p.vendorId != [0, 0] && p.builtinEndpointSet > 0 && p.leaseDurationMs > 0
    ensures P.Serialized(p).Some? ==> P.Serialized(p).value == ListBytes(
      [Parameter(0x0015, [2, 3, 0, 0]),
       Parameter(0x0016, p.vendorId + [0, 0]),
       Parameter(0x0050, p.guidPrefix + [0x00, 0x00, 0x01, 0xC1]),
       Parameter(0x0032, PutU32Le(1) + PutU32Le(p.metatrafficLocator.port) + Zeros(12) + p.metatrafficLocator.address),
       Parameter(0x0031, PutU32Le(1) + PutU32Le(p.defaultLocator.port) + Zeros(12) + p.defaultLocator.address),
       Parameter(0x0058, PutU32Le(p.builtinEndpointSet)),
       Parameter(0x0002, PutU32Le(p.leaseDurationMs / 1000) + PutU32Le(p.leaseDurationMs % 1000 * 1_000_000))])
  {
    hide ListBytes, PutU32Le;
  }
}
