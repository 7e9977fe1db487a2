/** Decimal notation of natural numbers, most significant digit first. */
module Decimal {

  type Digit = d: nat | d < 10

  function Digits(n: nat): (ds: seq<Digit>)
    ensures ds != []
  {
    if n < 10 then [n] else Digits(n / 10) + [n % 10]
  }

  function ValueOf(ds: seq<Digit>): nat {
    if ds == [] then 0 else 10 * ValueOf(ds[..|ds| - 1]) + ds[|ds| - 1]
  }

  lemma {:induction false} DigitsValue(n: nat)
    ensures ValueOf(Digits(n)) == n
  {
    if n < 10 {
      assert Digits(n)[..0] == [];
    } else {
      DigitsValue(n / 10);
      assert Digits(n)[..|Digits(n)| - 1] == Digits(n / 10);
    }
  }
}
