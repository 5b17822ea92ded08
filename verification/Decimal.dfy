/** Decimal text of 64-bit numbers, as `%ld` and `%lld` write it and `atol` reads it. */
module Decimal {

  const INT64_MIN := -0x8000_0000_0000_0000
  const INT64_MAX := 0x7fff_ffff_ffff_ffff

  predicate IsInt64(n: int) {
    INT64_MIN <= n <= INT64_MAX
  }

  function DigitChar(d: nat): char
    requires d < 10
  {
    '0' + d as char
  }

  function Digits(n: nat): string {
    if n < 10 then [DigitChar(n)] else Digits(n / 10) + [DigitChar(n % 10)]
  }

  function IntText(n: int): string {
    if n < 0 then "-" + Digits(-n) else Digits(n)
  }

  function ParseDigits(s: string): nat
    requires forall k :: 0 <= k < |s| ==> '0' <= s[k] <= '9'
  {
    if s == "" then 0 else 10 * ParseDigits(s[..|s| - 1]) + (s[|s| - 1] - '0') as nat
  }

  /** Reads an optional sign and digits; any other text does not occur in what the store writes. */
  function ParseInt(s: string): int {
    var negative := s != "" && s[0] == '-';
    var digits := if negative then s[1..] else s;
    if forall k :: 0 <= k < |digits| ==> '0' <= digits[k] <= '9'
    then if negative then -(ParseDigits(digits) as int) else ParseDigits(digits)
    else 0
  }

  lemma {:induction false} DigitsRoundTrip(n: nat)
    ensures Digits(n) != "" && forall k :: 0 <= k < |Digits(n)| ==> '0' <= Digits(n)[k] <= '9'
    ensures ParseDigits(Digits(n)) == n
  {
    if n < 10 {
      assert [DigitChar(n)][..0] == "";
    } else {
      DigitsRoundTrip(n / 10);
      assert Digits(n)[..|Digits(n)| - 1] == Digits(n / 10);
    }
  }

  lemma IntRoundTrip(n: int)
    ensures ParseInt(IntText(n)) == n
  {
    if n < 0 {
      DigitsRoundTrip(-n);
      assert IntText(n)[1..] == Digits(-n);
    } else {
      DigitsRoundTrip(n);
    }
  }

  function Pow10(k: nat): nat {
    if k == 0 then 1 else 10 * Pow10(k - 1)
  }

  lemma {:induction false} Pow10Sum(a: nat, b: nat)
    ensures Pow10(a + b) == Pow10(a) * Pow10(b)
  {
    if a > 0 {
      Pow10Sum(a - 1, b);
    }
  }

  lemma {:induction false} DigitsLength(n: nat, k: nat)
    requires k > 0 && n < Pow10(k)
    ensures 1 <= |Digits(n)| <= k
    ensures k > 1 && n >= Pow10(k - 1) ==> |Digits(n)| == k
  {
    if n >= 10 {
      DigitsLength(n / 10, k - 1);
    }
  }

  lemma Int64Length(n: int)
    requires IsInt64(n)
    ensures 1 <= |IntText(n)| <= 20
    ensures n == INT64_MIN ==> |IntText(n)| == 20
  {
    assert Pow10(2) == 100;
    Pow10Sum(2, 2);
    Pow10Sum(4, 4);
    Pow10Sum(8, 8);
    Pow10Sum(16, 2);
    Pow10Sum(18, 1);
    DigitsLength(if n < 0 then -n else n, 19);
  }
}
