/**
 * Digit characters: their values, as `char::to_digit` gives them, and the
 * decimal rendering of a number, as Rust's `{}` writes it.
 */
module Digits {
  import opened Wrappers

  /** The value of a digit character in a radix up to 36, as `char::to_digit` gives it. */
  function DigitValue(c: char, radix: nat): (d: Option<nat>)
    ensures d.Some? ==> d.value < radix
  {
    var v :=
      if '0' <= c <= '9' then (c as int) - ('0' as int)
      else if 'a' <= c <= 'z' then (c as int) - ('a' as int) + 10
      else if 'A' <= c <= 'Z' then (c as int) - ('A' as int) + 10
      else 36;
    if v < radix then Some(v) else None
  }

  /** A character the digit search accepts. */
  predicate IsAsciiDigit(c: char)
  {
    '0' <= c <= '9'
  }

  /** A decimal digit. */
  function DecimalChar(d: nat): (c: char)
    requires d < 10
    ensures DigitValue(c, 10) == Some(d) && IsAsciiDigit(c)
  {
    (('0' as int) + d) as char
  }

  /** `n` in decimal, without leading zeros, as Rust's `{}` writes it. */
  function Decimal(n: nat): (s: string)
    ensures s != [] && IsAsciiDigit(s[0])
    ensures forall k :: 0 <= k < |s| ==> IsAsciiDigit(s[k])
    ensures n == 0 || s[0] != '0'
  {
    if n < 10 then [DecimalChar(n)] else Decimal(n / 10) + [DecimalChar(n % 10)]
  }
}
