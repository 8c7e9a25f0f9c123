/** The numbers of the codec: finite binary64 values, and the exact value of a decimal numeral. */
module JsonNumber {
  import opened Wrappers
  import opened Floats

  /** Below this every integer is a double. */
  const MANTISSA: int := 0x20_0000_0000_0000

  ghost predicate IsDouble(x: real) {
    IsFloat(DOUBLE, x)
  }

  function Pow10(e: int): (r: real)
    ensures r > 0.0
    decreases if e < 0 then -e else e
  {
    if e == 0 then 1.0 else if e > 0 then 10.0 * Pow10(e - 1) else Pow10(e + 1) / 10.0
  }

  // ----- Numerals

  predicate IsDigit(c: char) {
    '0' <= c <= '9'
  }

  predicate AllDigits(text: string) {
    forall i :: 0 <= i < |text| ==> IsDigit(text[i])
  }

  function DigitsValue(text: string): int {
    if text == "" then 0
    else DigitsValue(text[..|text| - 1]) * 10 + (text[|text| - 1] as int - '0' as int)
  }

  /** The exponent part, with its letter and sign, or nothing. */
  function ExponentValue(exp: string): int {
    if |exp| < 2 then 0
    else if exp[1] == '-' then -DigitsValue(exp[2..])
    else if exp[1] == '+' then DigitsValue(exp[2..])
    else DigitsValue(exp[1..])
  }

  /** The exact value of a numeral: its digits, scaled by the exponent less the fraction's length. */
  function Exact(negative: bool, whole: string, fraction: string, exp: string): real {
    var x := DigitsValue(whole + fraction) as real * Pow10(ExponentValue(exp) - |fraction|);
    if negative then -x else x
  }

  /** What parsing a numeral as an `f64` gives; absent if that is infinite. */
  function NumeralValue(negative: bool, whole: string, fraction: string, exp: string): Option<real> {
    Round(DOUBLE, Exact(negative, whole, fraction, exp))
  }
}
