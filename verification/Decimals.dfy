/** Decimal numbers in text, as streams print them and `from_chars` reads them. */
module Decimals {
  import opened Bytes
  import opened ServiceTypes

  function Digit(d: nat): Byte
    requires d < 10
  {
    0x30 + d
  }

  function Decimal(n: nat): (s: Name)
    ensures s != []
  {
    if n < 10 then [Digit(n)] else Decimal(n / 10) + [Digit(n % 10)]
  }

  predicate IsDigit(b: Byte) {
    0x30 <= b < 0x3A
  }

  predicate AllDigits(s: Name) {
    forall i :: 0 <= i < |s| ==> IsDigit(s[i])
  }

  function ValueOf(s: Name): nat
    requires AllDigits(s)
  {
    if s == [] then 0 else 10 * ValueOf(s[..|s| - 1]) + (s[|s| - 1] - 0x30)
  }

  /** A non-empty run of digits below the bound. */
  function ParseBelow(bound: nat, s: Name): (r: Option<nat>)
    ensures r.Some? ==> r.value < bound
  {
    if s == [] || !AllDigits(s) || ValueOf(s) >= bound then None else Some(ValueOf(s))
  }

  lemma {:induction false} DecimalIsDigits(n: nat)
    ensures AllDigits(Decimal(n)) && ValueOf(Decimal(n)) == n
  {
    if n >= 10 {
      DecimalIsDigits(n / 10);
      var s := Decimal(n);
      assert s[..|s| - 1] == Decimal(n / 10);
    } else {
      assert Decimal(n)[..0] == [];
    }
  }

  lemma DecimalRoundTrip(n: nat, bound: nat)
    requires n < bound
    ensures ParseBelow(bound, Decimal(n)) == Some(n)
  {
    DecimalIsDigits(n);
  }

  lemma DecimalIsInjective(m: nat, n: nat)
    requires Decimal(m) == Decimal(n)
    ensures m == n
  {
    DecimalIsDigits(m);
    DecimalIsDigits(n);
  }
}
