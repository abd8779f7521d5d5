/** Numbers written in decimal. */
module Numerals {

  function Pow10(n: nat): (r: int)
    ensures r >= 1
  {
    if n == 0 then 1 else 10 * Pow10(n - 1)
  }

  lemma {:induction false} PowJoin(k: nat, m: nat)
    ensures Pow10(k + m) == Pow10(k) * Pow10(m)
    decreases k
  {
    if k > 0 {
      PowJoin(k - 1, m);
    }
  }

  // The decimal digits of n, each written as `digit` says.
  function Numeral<T>(n: nat, digit: nat -> T): (r: seq<T>)
    ensures r != [] && forall d | d in r :: exists k: nat :: k < 10 && d == digit(k)
  {
    if n < 10 then [digit(n)] else Numeral(n / 10, digit) + [digit(n % 10)]
  }

  lemma {:induction false} NumeralLength<T>(n: nat, digit: nat -> T, k: nat)
    requires n < Pow10(k) && k > 0
    ensures |Numeral(n, digit)| <= k
    decreases k
  {
    if n >= 10 {
      assert k > 1;
      NumeralLength(n / 10, digit, k - 1);
    }
  }
}
