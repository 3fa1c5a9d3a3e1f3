/** Octets, fixed-width unsigned integers and their big- and little-endian layouts. */
module Bytes {

  type Byte = n: nat | n < 0x100
  type U16 = n: nat | n < 0x1_0000
  type U32 = n: nat | n < 0x1_0000_0000
  type U64 = n: nat | n < 0x1_0000_0000_0000_0000

  const U32_MODULUS: nat := 0x1_0000_0000
  const U64_MODULUS: nat := 0x1_0000_0000_0000_0000

  datatype Option<+T> = None | Some(value: T)

  /** `++x` on a 64-bit counter. */
  function Increment(x: U64): U64 {
    (x + 1) % U64_MODULUS
  }

  /** The value of four octets, least significant first. */
  function Word(b0: int, b1: int, b2: int, b3: int): int {
    b0 + 0x100 * b1 + 0x1_0000 * b2 + 0x100_0000 * b3
  }

  /** Octet `k` of a 32-bit value, least significant first. */
  function Octet(v: U32, k: nat): Byte
    requires k < 4
  {
    if k == 0 then v % 0x100
    else if k == 1 then v / 0x100 % 0x100
    else if k == 2 then v / 0x1_0000 % 0x100
    else v / 0x100_0000
  }

  lemma WordOfOctets(v: U32)
    ensures Word(Octet(v, 0), Octet(v, 1), Octet(v, 2), Octet(v, 3)) == v
  {
    assert v / 0x100 / 0x100 == v / 0x1_0000;
    assert v / 0x1_0000 / 0x100 == v / 0x100_0000;
  }

  lemma OctetsOfWord(b0: Byte, b1: Byte, b2: Byte, b3: Byte)
    ensures 0 <= Word(b0, b1, b2, b3) < U32_MODULUS
    ensures Octet(Word(b0, b1, b2, b3), 0) == b0
    ensures Octet(Word(b0, b1, b2, b3), 1) == b1
    ensures Octet(Word(b0, b1, b2, b3), 2) == b2
    ensures Octet(Word(b0, b1, b2, b3), 3) == b3
  {
    var high := b2 + 0x100 * (b3 as int);
    var v := Word(b0, b1, b2, b3);
    assert v == 0x1_0000 * high + (b0 + 0x100 * (b1 as int));
    assert v / 0x1_0000 == high;
    assert v / 0x100 == b1 + 0x100 * high;
    assert v / 0x100_0000 == b3;
  }

  // ----- little-endian (RTPS, DDS) -----

  function PutU16Le(v: U16): (b: seq<Byte>)
    ensures |b| == 2
  {
    [v % 0x100, v / 0x100]
  }

  function GetU16Le(b: seq<Byte>, at: nat): U16
    requires at + 2 <= |b|
  {
    Word(b[at], b[at + 1], 0, 0)
  }

  function PutU32Le(v: U32): (b: seq<Byte>)
    ensures |b| == 4
  {
    [Octet(v, 0), Octet(v, 1), Octet(v, 2), Octet(v, 3)]
  }

  function GetU32Le(b: seq<Byte>, at: nat): U32
    requires at + 4 <= |b|
  {
    Word(b[at], b[at + 1], b[at + 2], b[at + 3])
  }

  // ----- big-endian (E2E frames, SOME/IP) -----

  function PutU16Be(v: U16): (b: seq<Byte>)
    ensures |b| == 2
  {
    [v / 0x100, v % 0x100]
  }

  function GetU16Be(b: seq<Byte>, at: nat): U16
    requires at + 2 <= |b|
  {
    Word(b[at + 1], b[at], 0, 0)
  }

  function PutU32Be(v: U32): (b: seq<Byte>)
    ensures |b| == 4
  {
    [Octet(v, 3), Octet(v, 2), Octet(v, 1), Octet(v, 0)]
  }

  function GetU32Be(b: seq<Byte>, at: nat): U32
    requires at + 4 <= |b|
  {
    Word(b[at + 3], b[at + 2], b[at + 1], b[at])
  }

  function PutU64Be(v: U64): (b: seq<Byte>)
    ensures |b| == 8
  {
    PutU32Be(v / U32_MODULUS) + PutU32Be(v % U32_MODULUS)
  }

  function GetU64Be(b: seq<Byte>, at: nat): U64
    requires at + 8 <= |b|
  {
    GetU32Be(b, at) as int * U32_MODULUS + GetU32Be(b, at + 4)
  }

  // ----- a field written somewhere in a buffer is read back, and the other way round -----

  lemma ReadU16Le(b: seq<Byte>, at: nat, v: U16)
    requires at + 2 <= |b| && b[at..at + 2] == PutU16Le(v)
    ensures GetU16Le(b, at) == v
  {
    assert b[at] == b[at..at + 2][0] && b[at + 1] == b[at..at + 2][1];
  }

  lemma ReadU32Le(b: seq<Byte>, at: nat, v: U32)
    requires at + 4 <= |b| && b[at..at + 4] == PutU32Le(v)
    ensures GetU32Le(b, at) == v
  {
    var f := b[at..at + 4];
    assert b[at] == f[0] && b[at + 1] == f[1] && b[at + 2] == f[2] && b[at + 3] == f[3];
    WordOfOctets(v);
  }

  lemma ReadU16Be(b: seq<Byte>, at: nat, v: U16)
    requires at + 2 <= |b| && b[at..at + 2] == PutU16Be(v)
    ensures GetU16Be(b, at) == v
  {
    assert b[at] == b[at..at + 2][0] && b[at + 1] == b[at..at + 2][1];
  }

  lemma ReadU32Be(b: seq<Byte>, at: nat, v: U32)
    requires at + 4 <= |b| && b[at..at + 4] == PutU32Be(v)
    ensures GetU32Be(b, at) == v
  {
    var f := b[at..at + 4];
    assert b[at] == f[0] && b[at + 1] == f[1] && b[at + 2] == f[2] && b[at + 3] == f[3];
    WordOfOctets(v);
  }

  lemma ReadU64Be(b: seq<Byte>, at: nat, v: U64)
    requires at + 8 <= |b| && b[at..at + 8] == PutU64Be(v)
    ensures GetU64Be(b, at) == v
  {
    var f := b[at..at + 8];
    assert b[at..at + 4] == f[..4] && b[at + 4..at + 8] == f[4..];
    ReadU32Be(b, at, v / U32_MODULUS);
    ReadU32Be(b, at + 4, v % U32_MODULUS);
  }

  lemma WriteU16Le(b: seq<Byte>, at: nat)
    requires at + 2 <= |b|
    ensures PutU16Le(GetU16Le(b, at)) == b[at..at + 2]
  {
  }

  lemma WriteU32Le(b: seq<Byte>, at: nat)
    requires at + 4 <= |b|
    ensures PutU32Le(GetU32Le(b, at)) == b[at..at + 4]
  {
    OctetsOfWord(b[at], b[at + 1], b[at + 2], b[at + 3]);
  }

  lemma WriteU16Be(b: seq<Byte>, at: nat)
    requires at + 2 <= |b|
    ensures PutU16Be(GetU16Be(b, at)) == b[at..at + 2]
  {
  }

  lemma WriteU32Be(b: seq<Byte>, at: nat)
    requires at + 4 <= |b|
    ensures PutU32Be(GetU32Be(b, at)) == b[at..at + 4]
  {
    OctetsOfWord(b[at + 3], b[at + 2], b[at + 1], b[at]);
  }

  lemma WriteU64Be(b: seq<Byte>, at: nat)
    requires at + 8 <= |b|
    ensures PutU64Be(GetU64Be(b, at)) == b[at..at + 8]
  {
    WriteU32Be(b, at);
    WriteU32Be(b, at + 4);
    assert GetU64Be(b, at) / U32_MODULUS == GetU32Be(b, at);
    assert GetU64Be(b, at) % U32_MODULUS == GetU32Be(b, at + 4);
    assert b[at..at + 8] == b[at..at + 4] + b[at + 4..at + 8];
  }
}
