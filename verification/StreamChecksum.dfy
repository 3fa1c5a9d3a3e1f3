/** The FNV-1a frame checksum, and why it notices any single wrong octet. */
module StreamChecksum {
  import opened Bytes
  import opened Words
  import opened Modular

  const FNV_OFFSET: U32 := 2166136261
  const FNV_PRIME: U32 := 16777619
  const FNV_PRIME_INVERSE: U32 := 899433627

  /** `checksum ^= byte` on the low octet of a 32-bit word. */
  function Mixed(checksum: U32, byte: Byte): U32 {
    ToU32(Xor(Digits(checksum, 32), Digits(byte, 32)))
  }

  function Scaled(v: U32): U32 {
    v as int * FNV_PRIME % U32_MODULUS
  }

  function Absorb(checksum: U32, byte: Byte): U32 {
    Scaled(Mixed(checksum, byte))
  }

  function ChecksumFrom(checksum: U32, payload: seq<Byte>): U32 {
    Fold(Absorb, checksum, payload)
  }

  function Checksum(payload: seq<Byte>): U32 {
    ChecksumFrom(FNV_OFFSET, payload)
  }

  method CalculateChecksum(payload: seq<Byte>) returns (checksum: U32)
    ensures checksum == Checksum(payload)
  {
    hide Absorb;
    checksum := FNV_OFFSET;
    for i := 0 to |payload|
      invariant ChecksumFrom(checksum, payload[i..]) == Checksum(payload)
    {
      assert payload[i..][0] == payload[i] && payload[i..][1..] == payload[i + 1..];
      checksum := Absorb(checksum, payload[i]);
    }
  }

  // ----- each step can be undone -----

  lemma ScalingIsInjective(v: U32, w: U32)
    requires Scaled(v) == Scaled(w)
    ensures v == w
  {
    Unscaled(v);
    Unscaled(w);
  }

  lemma Unscaled(v: U32)
    ensures Scaled(v) as int * FNV_PRIME_INVERSE % U32_MODULUS == v
  {
    var x, q := v as int, v as int * FNV_PRIME / U32_MODULUS;
    assert Scaled(v) as int == x * FNV_PRIME - q * U32_MODULUS;
    assert FNV_PRIME as int * FNV_PRIME_INVERSE == 3513497 * U32_MODULUS + 1;
    RemainderIs(Scaled(v) as int * FNV_PRIME_INVERSE, U32_MODULUS, 3513497 * x - q * FNV_PRIME_INVERSE, x);
  }

  lemma MixingIsInjective(a: U32, b: U32, byteA: Byte, byteB: Byte)
    requires Mixed(a, byteA) == Mixed(b, byteB) && (a == b || byteA == byteB)
    ensures a == b && byteA == byteB
  {
    hide Digits, Value;
    Power2Of32();
    var x, y, p, q := Digits(a, 32), Digits(b, 32), Digits(byteA, 32), Digits(byteB, 32);
    ValueInjective(Xor(x, p), Xor(y, q));
    forall i | 0 <= i < 32
      ensures x[i] == y[i] && p[i] == q[i]
    {
      assert Xor(x, p)[i] == Xor(y, q)[i];
    }
    assert x == y && p == q;
    DigitsInjective(a, b, 32);
    DigitsInjective(byteA, byteB, 32);
  }

  lemma {:induction false} DifferenceSurvives(a: U32, b: U32, rest: seq<Byte>)
    requires a != b
    ensures ChecksumFrom(a, rest) != ChecksumFrom(b, rest)
    decreases |rest|
  {
    hide Mixed, Scaled;
    if rest != [] {
      if Absorb(a, rest[0]) == Absorb(b, rest[0]) {
        ScalingIsInjective(Mixed(a, rest[0]), Mixed(b, rest[0]));
        MixingIsInjective(a, b, rest[0], rest[0]);
      }
      DifferenceSurvives(Absorb(a, rest[0]), Absorb(b, rest[0]), rest[1..]);
    }
  }

  /** Changing any one octet changes the checksum, however long the payload. */
  lemma {:induction false} OneOctetShows(checksum: U32, payload: seq<Byte>, at: nat, wrong: Byte)
    requires at < |payload| && wrong != payload[at]
    ensures ChecksumFrom(checksum, payload[at := wrong]) != ChecksumFrom(checksum, payload)
    decreases |payload|
  {
    hide Mixed, Scaled;
    var other := payload[at := wrong];
    if at == 0 {
      assert other[1..] == payload[1..];
      if Absorb(checksum, wrong) == Absorb(checksum, payload[0]) {
        ScalingIsInjective(Mixed(checksum, wrong), Mixed(checksum, payload[0]));
        MixingIsInjective(checksum, checksum, wrong, payload[0]);
      }
      DifferenceSurvives(Absorb(checksum, wrong), Absorb(checksum, payload[0]), payload[1..]);
    } else {
      assert other[1..] == payload[1..][at - 1 := wrong];
      OneOctetShows(Absorb(checksum, payload[0]), payload[1..], at - 1, wrong);
    }
  }
}
