/** Decimal numerals name distinct indices. */
module Decimals {
  import opened Json

  /** The number a numeral of digits stands for. */
  function ValueOf(numeral: string): int {
    if numeral == [] then 0
    else 10 * ValueOf(numeral[..|numeral| - 1]) + (numeral[|numeral| - 1] as int - '0' as int)
  }

  lemma {:induction false} NumeralRoundTrip(n: nat)
    ensures ValueOf(Decimal(n)) == n
  {
    var digit := n % 10;
    assert Digit(digit) as int - '0' as int == digit;
    if n >= 10 {
      NumeralRoundTrip(n / 10);
      assert Decimal(n)[..|Decimal(n)| - 1] == Decimal(n / 10);
    } else {
      assert Decimal(n)[..0] == [];
    }
  }

  predicate IsNumeral(s: string) {
    && s != [] && (forall i :: 0 <= i < |s| ==> '0' <= s[i] <= '9')
    && (|s| > 1 ==> s[0] != '0')
  }

  /** Numerals are written with digits only and without leading zeros, after a sign
      for negative numbers. */
  lemma {:induction false} NumeralForm(n: nat)
    ensures IsNumeral(Decimal(n))
    ensures n > 0 ==> Decimal(n)[0] != '0'
  {
    assert '0' <= Digit(n % 10) <= '9';
    if n >= 10 {
      NumeralForm(n / 10);
    }
  }

  lemma SignedNumeral(n: int)
    requires n < 0
    ensures Decimal(n) == "-" + Decimal(-n) && ValueOf(Decimal(n)[1..]) == -n
  {
    var positive: nat := -n;
    assert Decimal(n) == "-" + Decimal(positive);
    assert ("-" + Decimal(positive))[1..] == Decimal(positive);
    NumeralRoundTrip(positive);
  }

  lemma DistinctNumerals(m: nat, n: nat)
    requires Decimal(m) == Decimal(n)
    ensures m == n
  {
    NumeralRoundTrip(m);
    NumeralRoundTrip(n);
  }
}
