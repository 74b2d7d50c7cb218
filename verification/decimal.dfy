/**
 * Decimal rendering of a non-negative integer, as Python's str() produces it:
 * the reset code is str(random.randint(100000, 999999)).
 */
module Decimal {

  predicate IsDigit(ch: char)
  {
    '0' <= ch <= '9'
  }

  predicate AllDigits(s: string)
  {
    forall i :: 0 <= i < |s| ==> IsDigit(s[i])
  }

  function Pow10(k: nat): (r: nat)
    ensures r >= 1
  {
    if k == 0 then 1 else 10 * Pow10(k - 1)
  }

  /** The character of one decimal digit. */
  function Digit(d: nat): (ch: char)
    requires d < 10
    ensures IsDigit(ch)
    ensures ch as int - '0' as int == d
  {
    ('0' as int + d) as char
  }

  /** The canonical decimal text of n: digits only, most significant first,
      and no leading zero unless n is zero. */
  function ToDecimal(n: nat): (s: string)
    ensures |s| >= 1
    ensures AllDigits(s)
    ensures s[0] == '0' ==> n == 0
  {
    if n < 10 then [Digit(n)] else ToDecimal(n / 10) + [Digit(n % 10)]
  }

  /** The number a string of digits denotes (its reading as a decimal). */
  function Value(s: string): nat
    requires AllDigits(s)
  {
    if s == [] then 0 else 10 * Value(s[..|s| - 1]) + (s[|s| - 1] as int - '0' as int)
  }

  /** Reading back the rendered text gives the number again. */
  lemma {:induction false} ValueOfToDecimal(n: nat)
    ensures Value(ToDecimal(n)) == n
  {
    if n >= 10 {
      var s := ToDecimal(n);
      assert s[..|s| - 1] == ToDecimal(n / 10);
      ValueOfToDecimal(n / 10);
    }
  }

  /** Distinct numbers render as distinct texts. */
  lemma ToDecimalInjective(m: nat, n: nat)
    requires ToDecimal(m) == ToDecimal(n)
    ensures m == n
  {
    ValueOfToDecimal(m);
    ValueOfToDecimal(n);
  }

  /** A number with k digits renders as exactly k characters. */
  lemma {:induction false} ToDecimalLength(n: nat, k: nat)
    requires 1 <= k
    requires Pow10(k - 1) <= n < Pow10(k)
    ensures |ToDecimal(n)| == k
  {
    if n >= 10 {
      assert k >= 2;
      ToDecimalLength(n / 10, k - 1);
    }
  }

  /** Every reset code drawn from 100000..999999 is a six-digit string that
      reads back as the drawn number. */
  lemma SixDigitCode(n: nat)
    requires 100000 <= n <= 999999
    ensures |ToDecimal(n)| == 6
    ensures AllDigits(ToDecimal(n))
    ensures Value(ToDecimal(n)) == n
  {
    assert Pow10(5) == 100000 && Pow10(6) == 1000000;
    ToDecimalLength(n, 6);
    ValueOfToDecimal(n);
  }
}
