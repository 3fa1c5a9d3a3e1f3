/** Values that occur in both kinds of discovery parameter lists. */
module DiscoveryValues {
  import opened Bytes
  import opened ParameterList

  const LOCATOR_KIND_UDP_V4: U32 := 1
  const LOCATOR_SIZE: nat := 24

  type Ipv4 = a: seq<Byte> | |a| == 4 witness [0, 0, 0, 0]

  datatype Locator = Locator(address: Ipv4, port: U16)

  function LocatorValue(l: Locator): (b: seq<Byte>)
    ensures |b| == LOCATOR_SIZE
  {
    PutU32Le(LOCATOR_KIND_UDP_V4) + PutU32Le(l.port) + Zeros(12) + l.address
  }

  function ReadLocator(value: seq<Byte>): Option<Locator> {
    if |value| != LOCATOR_SIZE || GetU32Le(value, 0) != LOCATOR_KIND_UDP_V4 then None
    else if value[8..20] != Zeros(12) || GetU32Le(value, 4) > 0xFFFF then None
    else Some(Locator(value[20..24], GetU32Le(value, 4)))
  }

  lemma LocatorRoundTrip(l: Locator)
    ensures ReadLocator(LocatorValue(l)) == Some(l)
  {
    hide PutU32Le, GetU32Le;
    var b := LocatorValue(l);
    assert b[0..4] == PutU32Le(LOCATOR_KIND_UDP_V4);
    assert b[4..8] == PutU32Le(l.port);
    assert b[8..20] == Zeros(12) && b[20..24] == l.address;
    ReadU32Le(b, 0, LOCATOR_KIND_UDP_V4);
    ReadU32Le(b, 4, l.port);
  }

  lemma U32RoundTrip(v: U32)
    ensures GetU32Le(PutU32Le(v), 0) == v
  {
    assert PutU32Le(v)[0..4] == PutU32Le(v);
    ReadU32Le(PutU32Le(v), 0, v);
  }
}
