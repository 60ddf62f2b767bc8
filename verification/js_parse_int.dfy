/**
  The global `parseInt(string)` of ECMAScript called without a radix
  (section 19.2.5 of ECMA-262): leading white space is skipped, one optional
  sign is taken, a "0x"/"0X" prefix switches to radix 16, and the longest run
  of digits of the radix that follows is read. No digits at all gives NaN,
  written `None` here.
*/
module JsParseInt {
  import opened Wrappers
  import opened Decimal

  /** StrWhiteSpaceChar: the WhiteSpace and LineTerminator code points of ECMA-262. */
  predicate IsStrWhiteSpace(c: char) {
    var u := c as int;
    u == 0x09 || u == 0x0A || u == 0x0B || u == 0x0C || u == 0x0D || u == 0x20
    || u == 0xA0 || u == 0x1680 || (0x2000 <= u <= 0x200A) || u == 0x2028 || u == 0x2029
    || u == 0x202F || u == 0x205F || u == 0x3000 || u == 0xFEFF
  }

  predicate AllWhiteSpace(s: string) {
    forall i :: 0 <= i < |s| ==> IsStrWhiteSpace(s[i])
  }

  /** TrimString(s, start): drops the leading white space. */
  function TrimStart(s: string): (r: string)
    ensures |r| <= |s| && r == s[|s| - |r|..]
    ensures forall i :: 0 <= i < |s| - |r| ==> IsStrWhiteSpace(s[i])
    ensures r == [] || !IsStrWhiteSpace(r[0])
  {
    if |s| > 0 && IsStrWhiteSpace(s[0]) then TrimStart(s[1..]) else s
  }

  /** A digit of radix 10 or 16; letters of either case count in radix 16. */
  predicate IsRadixDigit(c: char, radix: int) {
    IsDigit(c) || (radix == 16 && (('a' <= c <= 'f') || ('A' <= c <= 'F')))
  }

  predicate AllRadixDigits(s: string, radix: int) {
    forall i :: 0 <= i < |s| ==> IsRadixDigit(s[i], radix)
  }

  function DigitValue(c: char, radix: int): (d: nat)
    requires radix == 10 || radix == 16
    requires IsRadixDigit(c, radix)
    ensures d < radix
  {
    if IsDigit(c) then c as int - '0' as int
    else if 'a' <= c <= 'f' then c as int - 'a' as int + 10
    else c as int - 'A' as int + 10
  }

  /** The longest prefix of `s` made of digits of the radix. */
  function DigitPrefix(s: string, radix: int): (z: string)
    ensures |z| <= |s| && z == s[..|z|]
    ensures AllRadixDigits(z, radix)
    ensures |z| == |s| || !IsRadixDigit(s[|z|], radix)
  {
    if |s| > 0 && IsRadixDigit(s[0], radix) then [s[0]] + DigitPrefix(s[1..], radix) else []
  }

  /** The mathematical value of a numeral, most significant digit first. */
  function DigitsValue(z: string, radix: int): nat
    requires radix == 10 || radix == 16
    requires AllRadixDigits(z, radix)
  {
    if z == [] then 0
    else DigitsValue(z[..|z| - 1], radix) * radix + DigitValue(z[|z| - 1], radix)
  }

  predicate IsHexPrefix(s: string) {
    |s| >= 2 && s[0] == '0' && (s[1] == 'x' || s[1] == 'X')
  }

  /** The digits at the start of `body` read in `radix`; `None` when there are none. */
  function ReadDigits(body: string, radix: int): (r: Option<nat>)
    requires radix == 10 || radix == 16
  {
    var z := DigitPrefix(body, radix);
    if z == [] then None else Some(DigitsValue(z, radix))
  }

  /** The text after the sign: a "0x" prefix selects radix 16, otherwise radix 10. */
  function ParseUnsigned(u: string): (r: Option<nat>)
  {
    if IsHexPrefix(u) then ReadDigits(u[2..], 16) else ReadDigits(u, 10)
  }

  /** The trimmed text: one leading '+' or '-' is taken as the sign. */
  function ParseSigned(s: string): (r: Option<int>)
  {
    var negative := |s| > 0 && s[0] == '-';
    var u := if |s| > 0 && (s[0] == '+' || s[0] == '-') then s[1..] else s;
    ApplySign(negative, ParseUnsigned(u))
  }

  function ApplySign(negative: bool, v: Option<nat>): Option<int> {
    match v
    case None => None
    case Some(n) => Some(if negative then -(n as int) else n as int)
  }

  /** parseInt(input) with the radix argument left undefined; `None` is NaN. */
  function ParseInt(input: string): (r: Option<int>)
  {
    ParseSigned(TrimStart(input))
  }

  predicate IsSign(sign: string) {
    sign == "" || sign == "+" || sign == "-"
  }

  lemma {:induction false} TrimStartSkips(w: string, t: string)
    requires AllWhiteSpace(w)
    requires t == [] || !IsStrWhiteSpace(t[0])
    ensures TrimStart(w + t) == t
  {
    if w != [] {
      assert (w + t)[1..] == w[1..] + t;
      TrimStartSkips(w[1..], t);
    }
  }

  lemma {:induction false} DigitPrefixStops(d: string, rest: string, radix: int)
    requires AllRadixDigits(d, radix)
    requires rest == [] || !IsRadixDigit(rest[0], radix)
    ensures DigitPrefix(d + rest, radix) == d
  {
    if d != [] {
      assert (d + rest)[1..] == d[1..] + rest;
      DigitPrefixStops(d[1..], rest, radix);
    }
  }

  lemma ParseIntAfterWhiteSpace(w: string, t: string)
    requires AllWhiteSpace(w)
    requires t == [] || !IsStrWhiteSpace(t[0])
    ensures ParseInt(w + t) == ParseSigned(t)
  {
    TrimStartSkips(w, t);
  }

  lemma ParseSignedUnsigned(sign: string, u: string)
    requires IsSign(sign)
    requires u == [] || (u[0] != '+' && u[0] != '-')
    ensures ParseSigned(sign + u) == ApplySign(sign == "-", ParseUnsigned(u))
  {
    var s := sign + u;
    if sign == "" {
      assert s == u;
    } else {
      assert s[0] == sign[0] && s[1..] == u;
    }
  }

  lemma ParseUnsignedDecimal(d: string, rest: string)
    requires d != [] && AllDigits(d)
    requires rest == [] || !IsDigit(rest[0])
    requires !(d == "0" && rest != [] && (rest[0] == 'x' || rest[0] == 'X'))
    ensures ParseUnsigned(d + rest) == Some(DigitsValue(d, 10))
  {
    DigitPrefixStops(d, rest, 10);
  }

  lemma ParseUnsignedHex(x: char, h: string, rest: string)
    requires x == 'x' || x == 'X'
    requires h != [] && AllRadixDigits(h, 16)
    requires rest == [] || !IsRadixDigit(rest[0], 16)
    ensures ParseUnsigned(['0', x] + h + rest) == Some(DigitsValue(h, 16))
  {
    var u := ['0', x] + h + rest;
    assert IsHexPrefix(u) && u[2..] == h + rest;
    DigitPrefixStops(h, rest, 16);
  }

  /**
    A decimal numeral after white space and an optional sign is read up to
    the first character that is not a decimal digit, unless the numeral is a
    lone "0" directly followed by 'x' or 'X' (that is the radix-16 prefix).
  */
  lemma ParseDecimal(w: string, sign: string, d: string, rest: string)
    requires AllWhiteSpace(w) && IsSign(sign)
    requires d != [] && AllDigits(d)
    requires rest == [] || !IsDigit(rest[0])
    requires !(d == "0" && rest != [] && (rest[0] == 'x' || rest[0] == 'X'))
    ensures ParseInt(w + sign + d + rest) ==
      ApplySign(sign == "-", Some(DigitsValue(d, 10)))
  {
    var u := d + rest;
    assert w + sign + d + rest == w + (sign + u);
    assert (sign + u)[0] == if sign == "" then d[0] else sign[0];
    ParseIntAfterWhiteSpace(w, sign + u);
    ParseSignedUnsigned(sign, u);
    ParseUnsignedDecimal(d, rest);
  }

  /** A text that starts with a decimal numeral reads as that numeral. */
  lemma ParseNumeral(d: string, rest: string)
    requires d != [] && AllDigits(d)
    requires rest == [] || !IsDigit(rest[0])
    requires !(d == "0" && rest != [] && (rest[0] == 'x' || rest[0] == 'X'))
    ensures ParseInt(d + rest) == Some(DigitsValue(d, 10))
  {
    ParseIntAfterWhiteSpace([], d + rest);
    assert [] + (d + rest) == d + rest;
    ParseSignedUnsigned("", d + rest);
    assert "" + (d + rest) == d + rest;
    ParseUnsignedDecimal(d, rest);
  }

  /** A "0x" or "0X" prefix switches the reading to radix 16. */
  lemma ParseHex(w: string, sign: string, x: char, h: string, rest: string)
    requires AllWhiteSpace(w) && IsSign(sign)
    requires x == 'x' || x == 'X'
    requires h != [] && AllRadixDigits(h, 16)
    requires rest == [] || !IsRadixDigit(rest[0], 16)
    ensures ParseInt(w + sign + ['0', x] + h + rest) ==
      ApplySign(sign == "-", Some(DigitsValue(h, 16)))
  {
    var u := ['0', x] + h + rest;
    assert w + sign + ['0', x] + h + rest == w + (sign + u);
    assert (sign + u)[0] == if sign == "" then '0' else sign[0];
    ParseIntAfterWhiteSpace(w, sign + u);
    ParseSignedUnsigned(sign, u);
    ParseUnsignedHex(x, h, rest);
  }

  lemma UnsignedWithoutDigit(u: string)
    requires u == [] || !IsDigit(u[0])
    ensures ParseUnsigned(u) == None
  {
    assert !IsHexPrefix(u);
    assert DigitPrefix(u, 10) == [];
  }

  /** Text in which no character is a decimal digit parses to NaN. */
  lemma NoDigitIsNaN(s: string)
    requires forall i :: 0 <= i < |s| ==> !IsDigit(s[i])
    ensures ParseInt(s) == None
  {
    var t := TrimStart(s);
    if |t| > 0 {
      assert t[0] == s[|s| - |t|];
    }
    if |t| > 1 {
      assert t[1..][0] == s[|s| - |t| + 1];
      UnsignedWithoutDigit(t[1..]);
    } else if |t| == 1 {
      UnsignedWithoutDigit(t[1..]);
    }
    UnsignedWithoutDigit(t);
  }

  lemma {:induction false} DecimalValue(n: nat)
    ensures AllRadixDigits(NatToDecimal(n), 10)
    ensures DigitsValue(NatToDecimal(n), 10) == n
  {
    var s := NatToDecimal(n);
    if n >= 10 {
      DecimalValue(n / 10);
      assert s[..|s| - 1] == NatToDecimal(n / 10);
    }
  }

  lemma ParseNatText(n: nat)
    ensures ParseInt(NatToDecimal(n)) == Some(n)
  {
    var d := NatToDecimal(n);
    DecimalValue(n);
    assert d == "" + "" + d + "";
    ParseDecimal("", "", d, "");
  }

  /** A minus sign directly followed by a decimal numeral reads as its negation. */
  lemma NegativeNumeral(d: string)
    requires d != [] && AllDigits(d)
    ensures ParseInt("-" + d) == ApplySign(true, Some(DigitsValue(d, 10)))
  {
    ParseIntAfterWhiteSpace([], "-" + d);
    assert [] + ("-" + d) == "-" + d;
    ParseSignedUnsigned("-", d);
    ParseUnsignedDecimal(d, []);
    assert d + [] == d;
  }

  lemma ParseNegativeText(n: nat)
    requires n > 0
    ensures ParseInt("-" + NatToDecimal(n)) == ApplySign(true, Some(n))
  {
    DecimalValue(n);
    NegativeNumeral(NatToDecimal(n));
  }

  lemma ParseNegativeInt(i: int)
    requires i < 0
    ensures ParseInt(IntToDecimal(i)) == Some(i)
  {
    ParseNegativeText(-i);
    assert ApplySign(true, Some(-i)) == Some(i);
  }

  /** Reading back the text of any integer gives the integer. */
  lemma ParseIntInvertsIntToDecimal(i: int)
    ensures ParseInt(IntToDecimal(i)) == Some(i)
  {
    if i >= 0 {
      ParseNatText(i);
    } else {
      ParseNegativeInt(i);
    }
  }

  /** Distinct integers have distinct texts. */
  lemma IntToDecimalInjective(a: int, b: int)
    requires IntToDecimal(a) == IntToDecimal(b)
    ensures a == b
  {
    ParseIntInvertsIntToDecimal(a);
    ParseIntInvertsIntToDecimal(b);
  }
}
