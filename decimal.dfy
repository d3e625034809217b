/** Decimal digits and powers of ten, shared by the validator (which reads
    decimal text) and the converter (which rounds to a number of decimals). */
module Decimal {

  /** An ASCII decimal digit: what the regular-expression class `\d` matches. */
  predicate IsDigit(c: char) {
    '0' <= c <= '9'
  }

  predicate AllDigits(s: string) {
    forall i :: 0 <= i < |s| ==> IsDigit(s[i])
  }

  function DigitValue(c: char): (v: nat)
    requires IsDigit(c)
    ensures v <= 9
  {
    (c as int - '0' as int) as nat
  }

  /** The natural number a string of digits denotes, most significant first. */
  function DigitsValue(s: string): (v: nat)
    requires AllDigits(s)
    ensures v < Pow10(|s|)
  {
    if s == [] then 0
    else
      var init := s[..|s| - 1];
      assert AllDigits(init);
      DigitsValue(init) * 10 + DigitValue(s[|s| - 1])
  }

  function Pow10(k: nat): (p: nat)
    ensures p >= 1
  {
    if k == 0 then 1 else 10 * Pow10(k - 1)
  }

  predicate IsWhole(x: real) {
    x == x.Floor as real
  }

  /** `x` in units of ten to the minus `d`. */
  function Scaled(x: real, d: nat): real {
    x * Pow10(d) as real
  }

  /** `x` is a multiple of ten to the minus `d`: it has at most `d` decimals. */
  predicate OnGrid(x: real, d: nat) {
    IsWhole(Scaled(x, d))
  }
}
