/** Decimal numerals, as `std::to_string`, `%llu` and Python's `str` print them. */
module Decimal {

  function Digit(d: nat): char
    requires d < 10
  {
    (d + '0' as int) as char
  }

  function Numeral(n: nat): (s: string)
    ensures |s| > 0
  {
    if n < 10 then [Digit(n)] else Numeral(n / 10) + [Digit(n % 10)]
  }

  predicate IsDigit(c: char) { '0' <= c <= '9' }

  /** Reading digits left to right, most significant first. */
  function Value(s: string): nat {
    if s == [] then 0
    else 10 * Value(s[..|s| - 1]) + (if IsDigit(s[|s| - 1]) then s[|s| - 1] as int - '0' as int else 0)
  }

  function Pow10(k: nat): (p: nat)
    ensures p > 0
  {
    if k == 0 then 1 else 10 * Pow10(k - 1)
  }

  lemma {:induction false} NumeralReads(n: nat)
    ensures Value(Numeral(n)) == n
    ensures forall c :: c in Numeral(n) ==> IsDigit(c)
  {
    if n >= 10 {
      NumeralReads(n / 10);
      assert Numeral(n)[..|Numeral(n)| - 1] == Numeral(n / 10);
    }
  }

  lemma {:induction false} NumeralLength(n: nat, k: nat)
    requires n < Pow10(k) && k > 0
    ensures |Numeral(n)| <= k
  {
    if n >= 10 {
      NumeralLength(n / 10, k - 1);
    }
  }
}
