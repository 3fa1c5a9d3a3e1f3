/** The string keys of the service registry, and why a key followed by a colon prefixes only its own service's keys. */
module ServiceKeys {
  import opened Bytes
  import opened ServiceTypes
  import opened Decimals

  const COLON: Name := [0x3A]

  function KeyFor(s: ServiceIdentifier): Name {
    Decimal(s.interfaceId) + COLON + Decimal(s.instanceId) + COLON
    + Decimal(s.majorVersion) + COLON + Decimal(s.minorVersion)
  }

  /** The key of a method or field of the service. */
  function MemberKey(s: ServiceIdentifier, name: Name): Name {
    KeyFor(s) + COLON + name
  }

  predicate StartsWith(s: Name, prefix: Name) {
    prefix <= s
  }

  /** `key.rfind(prefix, 0) == 0` for the prefix of a service. */
  predicate BelongsTo(key: Name, s: ServiceIdentifier) {
    StartsWith(key, KeyFor(s) + COLON)
  }

  // ----- decimal numbers -----

  predicate NoColon(s: Name) {
    forall i :: 0 <= i < |s| ==> s[i] != COLON[0]
  }

  lemma DecimalHasNoColon(n: nat)
    ensures NoColon(Decimal(n))
  {
    hide Decimal;
    DecimalIsDigits(n);
  }

  // ----- keys -----

  /** Two texts split at their first colon: if one is a prefix of the other, so are the rests, and the heads agree. */
  lemma SplitAtColon(x: Name, y: Name, u: Name, v: Name)
    requires NoColon(x) && NoColon(y) && x + COLON + u <= y + COLON + v
    ensures x == y && u <= v
  {
    var s, t := x + COLON + u, y + COLON + v;
    assert s[|x|] == COLON[0] && t[|y|] == COLON[0];
    assert forall i :: 0 <= i < |x| ==> s[i] == x[i];
    assert forall i :: 0 <= i < |y| ==> t[i] == y[i];
    assert |x| == |y|;
    assert x == s[..|x|] && y == t[..|x|];
    assert u == s[|x| + 1..] && v == t[|x| + 1..];
  }

  lemma KeyShape(s: ServiceIdentifier, rest: Name)
    ensures KeyFor(s) + COLON + rest ==
      Decimal(s.interfaceId) + COLON + (Decimal(s.instanceId) + COLON
        + (Decimal(s.majorVersion) + COLON + (Decimal(s.minorVersion) + COLON + rest)))
  {
  }

  /** A member key carries the prefix of a service exactly when it is a key of that service. */
  lemma PrefixIdentifiesService(a: ServiceIdentifier, b: ServiceIdentifier, name: Name)
    ensures BelongsTo(MemberKey(b, name), a) <==> a == b
  {
    hide Decimal;
    var u, v := KeyFor(a) + COLON, MemberKey(b, name);
    if a == b {
      assert v[..|u|] == u;
    } else if u <= v {
      KeyShape(a, []);
      KeyShape(b, name);
      assert u + [] == u;
      DecimalHasNoColon(a.interfaceId);
      DecimalHasNoColon(b.interfaceId);
      SplitAtColon(
        Decimal(a.interfaceId), Decimal(b.interfaceId),
        Decimal(a.instanceId) + COLON + (Decimal(a.majorVersion) + COLON + (Decimal(a.minorVersion) + COLON + [])),
        Decimal(b.instanceId) + COLON + (Decimal(b.majorVersion) + COLON + (Decimal(b.minorVersion) + COLON + name)));
      DecimalHasNoColon(a.instanceId);
      DecimalHasNoColon(b.instanceId);
      SplitAtColon(
        Decimal(a.instanceId), Decimal(b.instanceId),
        Decimal(a.majorVersion) + COLON + (Decimal(a.minorVersion) + COLON + []),
        Decimal(b.majorVersion) + COLON + (Decimal(b.minorVersion) + COLON + name));
      DecimalHasNoColon(a.majorVersion);
      DecimalHasNoColon(b.majorVersion);
      SplitAtColon(
        Decimal(a.majorVersion), Decimal(b.majorVersion),
        Decimal(a.minorVersion) + COLON + [], Decimal(b.minorVersion) + COLON + name);
      DecimalHasNoColon(a.minorVersion);
      DecimalHasNoColon(b.minorVersion);
      SplitAtColon(Decimal(a.minorVersion), Decimal(b.minorVersion), [], name);
      DecimalIsInjective(a.interfaceId, b.interfaceId);
      DecimalIsInjective(a.instanceId, b.instanceId);
      DecimalIsInjective(a.majorVersion, b.majorVersion);
      DecimalIsInjective(a.minorVersion, b.minorVersion);
      assert false;
    }
  }

  lemma KeyIsInjective(a: ServiceIdentifier, b: ServiceIdentifier)
    ensures KeyFor(a) == KeyFor(b) <==> a == b
  {
    hide KeyFor;
    PrefixIdentifiesService(a, b, []);
  }

  lemma MemberKeyIsInjective(a: ServiceIdentifier, m: Name, b: ServiceIdentifier, n: Name)
    ensures MemberKey(a, m) == MemberKey(b, n) <==> a == b && m == n
  {
    hide KeyFor;
    PrefixIdentifiesService(a, b, n);
    if MemberKey(a, m) == MemberKey(b, n) {
      assert MemberKey(a, m)[..|KeyFor(a)| + 1] == KeyFor(a) + COLON;
      assert MemberKey(a, m)[|KeyFor(a)| + 1..] == m && MemberKey(a, n)[|KeyFor(a)| + 1..] == n;
    }
  }
}
