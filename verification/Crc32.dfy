/**
 The CRC-32 loop of the E2E protection layer (reflected polynomial of IEEE 802.3,
 section 3.2.9), a bit-serial definition of the same register, and the errors it detects.
 */
module Crc32 {
  import opened Bytes
  import opened Words

  const REFLECTED_POLYNOMIAL: U32 := 0xEDB8_8320
  const POLYNOMIAL: Word32 := Digits(REFLECTED_POLYNOMIAL, 32)
  const ALL_ONES: U32 := 0xFFFF_FFFF
  const INITIAL: Word32 := Digits(ALL_ONES, 32)

  /** One turn of the inner loop: the mask is all ones exactly when the low bit is set. */
  function ShiftStep(crc: Word32): Word32 {
    Xor(ShiftRight1(crc), And(POLYNOMIAL, NegatedLowBit(crc)))
  }

  /** An octet cast to a 32-bit word. */
  function Widen(b: Byte): Word32 {
    Digits(b, 32)
  }

  function AbsorbOctet(crc: Word32, b: Byte): Word32 {
    Iterate(ShiftStep, Xor(crc, Widen(b)), 8)
  }

  function Register(crc: Word32, bytes: seq<Byte>): Word32 {
    Fold(AbsorbOctet, crc, bytes)
  }

  function Checksum(bytes: seq<Byte>): U32 {
    ToU32(Not(Register(INITIAL, bytes)))
  }

  method CalculateCrc32(bytes: seq<Byte>) returns (result: U32)
    ensures result == Checksum(bytes)
  {
    var crc := INITIAL;
    for i := 0 to |bytes|
      invariant Register(crc, bytes[i..]) == Register(INITIAL, bytes)
    {
      crc := ShiftInOctet(crc, bytes[i]);
      assert bytes[i..][0] == bytes[i] && bytes[i..][1..] == bytes[i + 1..];
    }
    result := ToU32(Not(crc));
  }

  /** The inner loop: add the octet to the register and shift it out. */
  method ShiftInOctet(start: Word32, byte: Byte) returns (crc: Word32)
    ensures crc == AbsorbOctet(start, byte)
  {
    hide ShiftStep, Xor, Widen;
    crc := Xor(start, Widen(byte));
    for bit := 0 to 8
      invariant Iterate(ShiftStep, crc, 8 - bit) == AbsorbOctet(start, byte)
    {
      crc := MaskedShift(crc);
    }
  }

  method MaskedShift(crc: Word32) returns (next: Word32)
    ensures next == ShiftStep(crc)
  {
    var mask := NegatedLowBit(crc);
    next := Xor(ShiftRight1(crc), And(POLYNOMIAL, mask));
  }

  // ----- the bit-serial register: one message bit at a time, low bit of each octet first -----

  function AbsorbBit(crc: Word32, b: bool): Word32 {
    ShiftStep(crc[0 := crc[0] != b])
  }

  function Feed(crc: Word32, bits: seq<bool>): Word32 {
    Fold(AbsorbBit, crc, bits)
  }

  function MessageBits(bytes: seq<Byte>): (bits: seq<bool>)
    ensures |bits| == 8 * |bytes|
  {
    if bytes == [] then [] else Digits(bytes[0], 8) + MessageBits(bytes[1..])
  }

  /** A low bit is absorbed on its own; the bits above it wait for the next shift. */
  lemma PeelLowBit(crc: Word32, v: Word32)
    ensures ShiftStep(Xor(crc, v)) == Xor(AbsorbBit(crc, v[0]), ShiftRight1(v))
  {
  }

  lemma {:induction false} OctetIsEightBits(crc: Word32, bits: seq<bool>, v: Word32)
    requires |bits| <= 32 && v == bits + seq(32 - |bits|, _ => false)
    ensures Iterate(ShiftStep, Xor(crc, v), |bits|) == Feed(crc, bits)
    decreases |bits|
  {
    if bits == [] {
      assert Xor(crc, v) == crc;
    } else {
      PeelLowBit(crc, v);
      OctetIsEightBits(AbsorbBit(crc, bits[0]), bits[1..], ShiftRight1(v));
    }
  }

  /** The octet loop computes the bit-serial register of the whole message. */
  lemma {:induction false} RegisterIsBitSerial(crc: Word32, bytes: seq<Byte>)
    ensures Register(crc, bytes) == Feed(crc, MessageBits(bytes))
    decreases |bytes|
  {
    if bytes != [] {
      var octet := Digits(bytes[0], 8);
      Power2Of32();
      HighDigitsAreZero(bytes[0], 32, 8);
      OctetIsEightBits(crc, octet, Widen(bytes[0]));
      FoldConcat(AbsorbBit, crc, octet, MessageBits(bytes[1..]));
      RegisterIsBitSerial(AbsorbOctet(crc, bytes[0]), bytes[1..]);
    }
  }

  // ----- bursts -----

  /** `x` and `y` agree outside the `width` bits starting at `from`. */
  predicate DifferOnlyWithin(x: seq<bool>, y: seq<bool>, from: nat, width: nat) {
    && |x| == |y|
    && forall i :: 0 <= i < |x| && !(from <= i < from + width) ==> x[i] == y[i]
  }

  /** The registers differ in some bit at position `n` or above. */
  predicate Apart(r: Word32, s: Word32, n: nat) {
    exists i :: n <= i < 32 && r[i] != s[i]
  }

  lemma PolynomialReachesTop()
    ensures POLYNOMIAL[31]
  {
    Power2Of32();
    TopDigit(REFLECTED_POLYNOMIAL, 32);
  }

  /** `next` is the register `r` after the message bit `p`, bit by bit. */
  predicate Absorbed(r: Word32, p: bool, next: Word32) {
    && next[31] == (r[0] != p)
    && forall i :: 0 < i < 32 ==> next[i - 1] == (r[i] != (POLYNOMIAL[i - 1] && r[0] != p))
  }

  lemma AbsorbedBits(r: Word32, p: bool)
    ensures Absorbed(r, p, AbsorbBit(r, p))
  {
    PolynomialReachesTop();
  }

  /** A difference sinks at most one position a bit, and re-enters at the top from the bottom. */
  lemma DifferenceSinksSlowly(r: Word32, s: Word32, p: bool, q: bool, n: nat, r': Word32, s': Word32)
    requires Apart(r, s, n) && (n == 0 ==> p == q)
    requires Absorbed(r, p, r') && Absorbed(s, q, s')
    ensures Apart(r', s', if n == 0 then 0 else n - 1)
  {
    var i :| n <= i < 32 && r[i] != s[i];
    if (r[0] != p) != (s[0] != q) {
      assert r'[31] != s'[31];
    } else {
      assert r'[i - 1] != s'[i - 1];
    }
  }

  lemma FirstErrorReachesTop(r: Word32, p: bool, q: bool, r': Word32, s': Word32)
    requires p != q && Absorbed(r, p, r') && Absorbed(r, q, s')
    ensures Apart(r', s', 31)
  {
    assert r'[31] != s'[31];
  }

  lemma {:induction false} StayApart(r: Word32, s: Word32, x: seq<bool>, y: seq<bool>, n: nat)
    requires Apart(r, s, n) && DifferOnlyWithin(x, y, 0, n)
    ensures Feed(r, x) != Feed(s, y)
    decreases |x|
  {
    if x != [] {
      var r', s' := AbsorbBit(r, x[0]), AbsorbBit(s, y[0]);
      AbsorbedBits(r, x[0]);
      AbsorbedBits(s, y[0]);
      DifferenceSinksSlowly(r, s, x[0], y[0], n, r', s');
      StayApart(r', s', x[1..], y[1..], if n == 0 then 0 else n - 1);
    }
  }

  lemma FirstErrorShows(r: Word32, r': Word32, s': Word32, x: seq<bool>, y: seq<bool>)
    requires x != [] && DifferOnlyWithin(x, y, 0, 32) && x[0] != y[0]
    requires Absorbed(r, x[0], r') && Absorbed(r, y[0], s')
    ensures Feed(r', x[1..]) != Feed(s', y[1..])
  {
    FirstErrorReachesTop(r, x[0], y[0], r', s');
    StayApart(r', s', x[1..], y[1..], 31);
  }

  /** A non-empty burst of at most 32 bits shows in the register, whatever it started from. */
  lemma {:induction false} BurstShows(r: Word32, x: seq<bool>, y: seq<bool>, from: nat)
    requires DifferOnlyWithin(x, y, from, 32) && x != y
    ensures Feed(r, x) != Feed(r, y)
    decreases |x|
  {
    assert x == [x[0]] + x[1..] && y == [y[0]] + y[1..];
    if x[0] == y[0] {
      BurstShows(AbsorbBit(r, x[0]), x[1..], y[1..], if from == 0 then 0 else from - 1);
    } else {
      var r', s' := AbsorbBit(r, x[0]), AbsorbBit(r, y[0]);
      AbsorbedBits(r, x[0]);
      AbsorbedBits(r, y[0]);
      FirstErrorShows(r, r', s', x, y);
    }
  }

  // ----- from bits back to octets -----

  lemma {:induction false} MessageBitsInjective(a: seq<Byte>, b: seq<Byte>)
    requires |a| == |b| && MessageBits(a) == MessageBits(b)
    ensures a == b
  {
    if a != [] {
      assert Digits(a[0], 8) == MessageBits(a)[..8] && MessageBits(a[1..]) == MessageBits(a)[8..];
      assert Digits(b[0], 8) == MessageBits(b)[..8] && MessageBits(b[1..]) == MessageBits(b)[8..];
      Power2Of32();
      DigitsInjective(a[0], b[0], 8);
      MessageBitsInjective(a[1..], b[1..]);
    }
  }

  /** Bits `8k .. 8k + 8` of a message come from octet `k`. */
  lemma {:induction false} MessageBitsAt(a: seq<Byte>, b: seq<Byte>, i: nat)
    requires |a| == |b| && i < 8 * |a| && a[i / 8] == b[i / 8]
    ensures MessageBits(a)[i] == MessageBits(b)[i]
    decreases |a|
  {
    if i >= 8 {
      assert (i - 8) / 8 == i / 8 - 1;
      MessageBitsAt(a[1..], b[1..], i - 8);
    }
  }

  // ----- what the checksum detects -----

  /** Every non-empty burst of at most 32 message bits changes the checksum. */
  lemma BurstDetected(a: seq<Byte>, b: seq<Byte>, from: nat)
    requires |a| == |b| && a != b
    requires DifferOnlyWithin(MessageBits(a), MessageBits(b), from, 32)
    ensures Checksum(a) != Checksum(b)
  {
    if MessageBits(a) == MessageBits(b) {
      MessageBitsInjective(a, b);
    }
    RegisterIsBitSerial(INITIAL, a);
    RegisterIsBitSerial(INITIAL, b);
    BurstShows(INITIAL, MessageBits(a), MessageBits(b), from);
    var x, y := Register(INITIAL, a), Register(INITIAL, b);
    var i :| 0 <= i < 32 && x[i] != y[i];
    assert Not(x)[i] != Not(y)[i];
    if Checksum(a) == Checksum(b) {
      ValueInjective(Not(x), Not(y));
    }
  }

  /** Every change confined to four consecutive octets changes the checksum. */
  lemma FourOctetsDetected(a: seq<Byte>, b: seq<Byte>, at: nat)
    requires |a| == |b| && a != b
    requires forall k :: 0 <= k < |a| && !(at <= k < at + 4) ==> a[k] == b[k]
    ensures Checksum(a) != Checksum(b)
  {
    forall i | 0 <= i < 8 * |a| && !(8 * at <= i < 8 * at + 32)
      ensures MessageBits(a)[i] == MessageBits(b)[i]
    {
      assert !(at <= i / 8 < at + 4);
      MessageBitsAt(a, b, i);
    }
    BurstDetected(a, b, 8 * at);
  }
}
