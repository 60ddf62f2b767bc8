/**
  How a JavaScript number with an integer value is turned into text, as the
  template literals `${userId}` and `{posts.length}` do: plain decimal digits,
  a leading '-' for a negative value, no leading zeros.
*/
module Decimal {

  predicate IsDigit(c: char) {
    '0' <= c <= '9'
  }

  predicate AllDigits(s: string) {
    forall i :: 0 <= i < |s| ==> IsDigit(s[i])
  }

  /** The character that stands for the decimal digit `d`. */
  function DigitChar(d: nat): (c: char)
    requires d < 10
    ensures IsDigit(c) && c as int - '0' as int == d
  {
    ('0' as int + d) as char
  }

  /** The decimal numeral of `n`, most significant digit first. */
  function NatToDecimal(n: nat): (s: string)
    ensures |s| > 0 && AllDigits(s)
    ensures s[0] == '0' ==> n == 0
    ensures n < 10 <==> |s| == 1
  {
    if n < 10 then [DigitChar(n)] else NatToDecimal(n / 10) + [DigitChar(n % 10)]
  }

  /** The text of an integer-valued number; -0 is not distinguished from 0. */
  function IntToDecimal(i: int): (s: string)
    ensures |s| > 0
    ensures s[0] == '-' <==> i < 0
    ensures i >= 0 ==> AllDigits(s)
    ensures i < 0 ==> |s| > 1 && AllDigits(s[1..])
  {
    if i < 0 then
      var d := NatToDecimal(-i);
      assert ("-" + d)[1..] == d;
      "-" + d
    else NatToDecimal(i)
  }
}
