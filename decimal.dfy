/**
 * Decimal and hexadecimal digit strings: how JavaScript prints an integer
 * (`String(n)`, `n.toString(16)`) and how the JSON and URI decoders read
 * digits back.
 */
module Decimal {

  predicate IsDigit(c: char)
  {
    '0' <= c <= '9'
  }

  predicate AllDigits(s: string)
  {
    forall i :: 0 <= i < |s| ==> IsDigit(s[i])
  }

  function DigitChar(d: nat): (c: char)
    requires d < 10
    ensures IsDigit(c) && (c == '0') == (d == 0)
  {
    ('0' as int + d) as char
  }

  function DigitValue(c: char): (d: nat)
    requires IsDigit(c)
    ensures d < 10 && DigitChar(d) == c && c as int == '0' as int + d
  {
    (c as int) - ('0' as int)
  }

  /** The shortest decimal numeral of `n`: no leading zero except for zero itself. */
  function NatToString(n: nat): (s: string)
    ensures |s| >= 1 && AllDigits(s)
    ensures (s[0] == '0') == (n == 0)
    ensures n < 10 <==> |s| == 1
  {
    if n < 10 then [DigitChar(n)] else NatToString(n / 10) + [DigitChar(n % 10)]
  }

  /** The value of a string of decimal digits, most significant first. */
  function DigitsValue(s: string): nat
    requires AllDigits(s)
  {
    if s == [] then 0 else DigitsValue(s[..|s| - 1]) * 10 + DigitValue(s[|s| - 1])
  }

  lemma {:induction false} DigitsValueOfNatToString(n: nat)
    ensures DigitsValue(NatToString(n)) == n
  {
    if n >= 10 {
      var q, r := n / 10, n % 10;
      assert n == q * 10 + r;
      DigitsValueOfNatToString(q);
      DigitsValueAppend(NatToString(q), DigitChar(r));
    }
  }

  lemma DigitsValueAppend(d: string, c: char)
    requires AllDigits(d) && IsDigit(c)
    ensures AllDigits(d + [c]) && DigitsValue(d + [c]) == DigitsValue(d) * 10 + DigitValue(c)
  {
    assert (d + [c])[..|d|] == d;
  }

  /** `String(i)` for an integer `i`. */
  function IntToString(i: int): (s: string)
    ensures |s| >= 1 && (s[0] == '-' || IsDigit(s[0]))
  {
    if i < 0 then "-" + NatToString(-i) else NatToString(i)
  }

  predicate IsHexDigit(c: char)
  {
    IsDigit(c) || 'a' <= c <= 'f' || 'A' <= c <= 'F'
  }

  predicate IsLowerHexDigit(c: char)
  {
    IsDigit(c) || 'a' <= c <= 'f'
  }

  /** Lower-case hexadecimal digit, as `Number.prototype.toString(16)` prints it. */
  function HexDigit(d: nat): (c: char)
    requires d < 16
    ensures IsLowerHexDigit(c) && IsHexDigit(c)
  {
    if d < 10 then DigitChar(d) else ('a' as int + d - 10) as char
  }

  /** The value of a hexadecimal digit of either case. */
  function HexValue(c: char): (d: nat)
    requires IsHexDigit(c)
    ensures d < 16
  {
    if IsDigit(c) then DigitValue(c)
    else if 'a' <= c <= 'f' then (c as int) - ('a' as int) + 10
    else (c as int) - ('A' as int) + 10
  }

  lemma HexValueOfHexDigit(d: nat)
    requires d < 16
    ensures HexValue(HexDigit(d)) == d
  {
  }

  /** Two hexadecimal digits read as one number in 0..255. */
  function HexPairValue(hi: char, lo: char): (v: nat)
    requires IsHexDigit(hi) && IsHexDigit(lo)
    ensures v < 256
  {
    HexValue(hi) * 16 + HexValue(lo)
  }

  /** `("00" + b.toString(16)).slice(-2)`: a value below 256 as exactly two lower-case hex digits. */
  function HexPair(b: nat): (s: string)
    requires b < 256
    ensures |s| == 2 && IsLowerHexDigit(s[0]) && IsLowerHexDigit(s[1])
    ensures IsHexDigit(s[0]) && IsHexDigit(s[1]) && HexPairValue(s[0], s[1]) == b
  {
    HexValueOfHexDigit(b / 16);
    HexValueOfHexDigit(b % 16);
    [HexDigit(b / 16), HexDigit(b % 16)]
  }
}
