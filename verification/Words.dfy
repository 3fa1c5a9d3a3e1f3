/**
 Unsigned machine words as sequences of binary digits, least significant first, with the
 bitwise operators of the language and their numeric value.
 */
module Words {
  import opened Bytes

  function Fold<S, T>(step: (S, T) -> S, s: S, xs: seq<T>): S
    decreases |xs|
  {
    if xs == [] then s else Fold(step, step(s, xs[0]), xs[1..])
  }

  function Iterate<S>(step: S -> S, s: S, n: nat): S
    decreases n
  {
    if n == 0 then s else Iterate(step, step(s), n - 1)
  }

  lemma {:induction false} FoldConcat<S, T>(step: (S, T) -> S, s: S, a: seq<T>, b: seq<T>)
    ensures Fold(step, s, a + b) == Fold(step, Fold(step, s, a), b)
    decreases |a|
  {
    if a == [] {
      assert a + b == b;
    } else {
      FoldConcat(step, step(s, a[0]), a[1..], b);
      assert (a + b)[1..] == a[1..] + b;
    }
  }

  type Word32 = w: seq<bool> | |w| == 32 witness seq(32, _ => false)

  function Power2(n: nat): nat {
    if n == 0 then 1 else 2 * Power2(n - 1)
  }

  /** The low `n` binary digits of a number. */
  function Digits(v: nat, n: nat): (w: seq<bool>)
    ensures |w| == n
  {
    if n == 0 then [] else [v % 2 == 1] + Digits(v / 2, n - 1)
  }

  function Value(w: seq<bool>): (v: nat)
    ensures v < Power2(|w|)
  {
    if w == [] then 0 else (if w[0] then 1 else 0) + 2 * Value(w[1..])
  }

  lemma Power2Of32()
    ensures Power2(8) == 0x100 && Power2(31) == 0x8000_0000 && Power2(32) == U32_MODULUS
  {
    assert Power2(16) == Power2(8) * 0x100;
    assert Power2(24) == Power2(16) * 0x100;
  }

  /** The value of a 32-bit word as an unsigned number. */
  function ToU32(w: Word32): U32 {
    Power2Of32();
    Value(w)
  }

  function Xor(a: Word32, b: Word32): Word32 {
    seq(32, i requires 0 <= i < 32 => a[i] != b[i])
  }

  function And(a: Word32, b: Word32): Word32 {
    seq(32, i requires 0 <= i < 32 => a[i] && b[i])
  }

  function Not(a: Word32): Word32 {
    seq(32, i requires 0 <= i < 32 => !a[i])
  }

  function ShiftRight1(a: Word32): Word32 {
    a[1..] + [false]
  }

  /** `0 - (a & 1)` in wrapping arithmetic: all ones or all zeros. */
  function NegatedLowBit(a: Word32): Word32 {
    seq(32, i => a[0])
  }

  lemma {:induction false} ValueInjective(a: seq<bool>, b: seq<bool>)
    requires |a| == |b| && Value(a) == Value(b)
    ensures a == b
  {
    if a != [] {
      ValueInjective(a[1..], b[1..]);
      assert a == [a[0]] + a[1..] && b == [b[0]] + b[1..];
    }
  }

  lemma {:induction false} ValueOfDigits(v: nat, n: nat)
    requires v < Power2(n)
    ensures Value(Digits(v, n)) == v
  {
    if n > 0 {
      ValueOfDigits(v / 2, n - 1);
      assert Digits(v, n)[1..] == Digits(v / 2, n - 1);
    }
  }

  lemma {:induction false} DigitsOfValue(w: seq<bool>)
    ensures Digits(Value(w), |w|) == w
  {
    if w != [] {
      DigitsOfValue(w[1..]);
      assert w == [w[0]] + w[1..];
    }
  }

  lemma {:induction false} DigitsInjective(v: nat, w: nat, n: nat)
    requires v < Power2(n) && w < Power2(n) && Digits(v, n) == Digits(w, n)
    ensures v == w
  {
    ValueOfDigits(v, n);
    ValueOfDigits(w, n);
  }

  lemma {:induction false} TopDigit(v: nat, n: nat)
    requires 0 < n && Power2(n - 1) <= v < Power2(n)
    ensures Digits(v, n)[n - 1]
  {
    if n > 1 {
      TopDigit(v / 2, n - 1);
    }
  }

  /** Digits beyond the ones that make up a number are zero. */
  lemma {:induction false} HighDigitsAreZero(v: nat, n: nat, k: nat)
    requires k <= n && v < Power2(k)
    ensures Digits(v, n) == Digits(v, k) + seq(n - k, _ => false)
  {
    if n > 0 {
      if k == 0 {
        HighDigitsAreZero(0, n - 1, 0);
      } else {
        HighDigitsAreZero(v / 2, n - 1, k - 1);
      }
    }
  }
}
