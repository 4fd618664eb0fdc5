/** Small text helpers shared by the cell display and the score log:
    an Option type, decimal digits, and the decimal rendering of a number. */
module Text {

  datatype Option<T> = None | Some(value: T)

  predicate IsDigit(c: char) {
    '0' <= c <= '9'
  }

  predicate AllDigits(s: string) {
    forall k :: 0 <= k < |s| ==> IsDigit(s[k])
  }

  /** The numeric value of a decimal digit character. */
  function DigitValue(c: char): (d: nat)
    requires IsDigit(c)
    ensures d < 10
  {
    c as int - '0' as int
  }

  /** The decimal digit character of a value below ten. */
  function Digit(d: nat): (c: char)
    requires d < 10
    ensures IsDigit(c) && DigitValue(c) == d
  {
    ('0' as int + d) as char
  }

  /** The number a string of decimal digits denotes (most significant digit first). */
  function DigitsValue(s: string): nat
    requires AllDigits(s)
  {
    if |s| == 0 then 0 else DigitsValue(s[..|s| - 1]) * 10 + DigitValue(s[|s| - 1])
  }

  /** Int32.ToString() of a non-negative value: its shortest decimal rendering. */
  function DecimalText(n: nat): (t: string)
    ensures |t| >= 1 && AllDigits(t)
    ensures DigitsValue(t) == n
    ensures |t| > 1 ==> t[0] != '0'
    ensures n < 10 <==> |t| == 1
  {
    if n < 10 then [Digit(n)]
    else
      var prefix := DecimalText(n / 10);
      var t := prefix + [Digit(n % 10)];
      assert t[..|t| - 1] == prefix;
      t
  }
}
