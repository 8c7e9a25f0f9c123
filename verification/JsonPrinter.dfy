/** A printer that is read back exists: every double has an exact decimal numeral. */
module JsonPrinter {
  import opened Wrappers
  import opened Floats
  import opened JsonNumber
  import opened JsonModel
  import opened JsonSyntax
  import opened JsonRoundTrip

  function FiveTo(k: nat): (r: nat)
    ensures r > 0
  {
    if k == 0 then 1 else 5 * FiveTo(k - 1)
  }

  lemma FivesStep(k: nat)
    ensures FiveTo(0) as real == 1.0 && Pow10(0) == 1.0 && Pow2(0) == 1.0
    ensures FiveTo(k + 1) as real == 5.0 * FiveTo(k) as real
    ensures Pow10(-1 - k) == Pow10(0 - k) / 10.0 && Pow2(-1 - k) == Pow2(0 - k) / 2.0
  {
  }

  lemma FiveOfTen(f: real, t: real, p: real)
    requires f * t == p
    ensures 5.0 * f * (t / 10.0) == p / 2.0
  {
    assert 5.0 * f * (t / 10.0) == f * t * (5.0 / 10.0);
  }

  /** Five to the `k` tenths to the `k` are one half to the `k`. */
  lemma {:induction false} FivesAndTens(k: nat, f: real, t: real, p: real)
    requires f == FiveTo(k) as real && t == Pow10(0 - k) && p == Pow2(0 - k)
    ensures f * t == p
    decreases k
  {
    hide FiveTo, Pow10, Pow2;
    if k == 0 {
      FivesStep(0);
    } else {
      var n := k - 1;
      var (f', t', p') := (FiveTo(n) as real, Pow10(0 - n), Pow2(0 - n));
      FivesAndTens(n, f', t', p');
      FivesStep(n);
      assert -1 - n == 0 - k;
      FiveOfTen(f', t', p');
    }
  }

  /** The exact numeral of `m * 2^e`: below one, as that many fives and tenths. */
  function ExactNumeral(m: int, e: int): Numeral {
    var n: nat := if m < 0 then -m else m;
    if e >= 0 then Numeral(m < 0, Digits(n * TwoTo(e)), "", "")
    else Numeral(m < 0, Digits(n * FiveTo(-e)), "", ['e', '-'] + Digits(-e))
  }

  lemma DigitsAreGood(n: nat)
    ensures Digits(n) != "" && AllDigits(Digits(n)) && (Digits(n)[0] == '0' ==> |Digits(n)| == 1)
    ensures DigitsValue(Digits(n) + "") == n
  {
    DigitsRoundTrip(n);
    assert Digits(n) + "" == Digits(n);
  }

  lemma NegativeExponent(k: nat)
    ensures var exp := ['e', '-'] + Digits(k); GoodExponent(exp) && ExponentValue(exp) == 0 - k
  {
    hide Digits, AllDigits, DigitsValue;
    DigitsRoundTrip(k);
    var exp := ['e', '-'] + Digits(k);
    assert exp[2..] == Digits(k);
  }

  lemma ExactNumeralGood(m: int, e: int)
    ensures ExactNumeral(m, e).Good()
  {
    hide Digits, AllDigits, TwoTo, FiveTo, GoodExponent;
    var n: nat := if m < 0 then -m else m;
    assert AllDigits("") by { NoDigitsAtAll(); }
    if e >= 0 {
      DigitsAreGood(n * TwoTo(e));
    } else {
      DigitsAreGood(n * FiveTo(-e));
      NegativeExponent(-e);
    }
  }

  lemma NoDigitsAtAll()
    ensures AllDigits("")
  {
  }

  /** The digits and the power of ten make the number of that mantissa and exponent. */
  lemma WholeMagnitude(n: nat, e: nat, x: real)
    requires x == n as real * Pow2(e)
    ensures (n * TwoTo(e)) as real * Pow10(0) == x
  {
    hide Pow2, Pow10, TwoTo;
    FivesStep(0);
    Pow2Sum(0, e, Pow2(e), TwoTo(e) as real, 1.0);
    RealProduct(n, TwoTo(e));
  }

  lemma FractionMagnitude(n: nat, k: nat, x: real, t: real)
    requires x == n as real * Pow2(0 - k) && t == Pow10(0 - k)
    ensures (n * FiveTo(k)) as real * t == x
  {
    hide Pow2, Pow10, FiveTo;
    var f := FiveTo(k) as real;
    FivesAndTens(k, f, t, Pow2(0 - k));
    RealProduct(n, FiveTo(k));
    Associates(n as real, f, t);
  }

  /** The exact value of the numeral, without its sign. */
  lemma ExactUnsigned(n: nat, e: int, x: real)
    requires x == n as real * Pow2(e)
    ensures e >= 0 ==> Exact(false, Digits(n * TwoTo(e)), "", "") == x
    ensures e < 0 ==> Exact(false, Digits(n * FiveTo(-e)), "", ['e', '-'] + Digits(-e)) == x
  {
    hide Digits, DigitsValue, ExponentValue, Pow2, Pow10, TwoTo, FiveTo;
    NoExponent();
    if e >= 0 {
      WholeMagnitude(n, e, x);
      DigitsAreGood(n * TwoTo(e));
    } else {
      assert 0 - (-e) == e;
      FractionMagnitude(n, -e, x, Pow10(e));
      DigitsAreGood(n * FiveTo(-e));
      NegativeExponent(-e);
    }
  }

  lemma ExactSigned(whole: string, exp: string)
    ensures Exact(true, whole, "", exp) == -Exact(false, whole, "", exp)
  {
    hide DigitsValue, Pow10, ExponentValue;
  }

  lemma ExactNumeralValue(m: int, e: int, x: real)
    requires Represents(DOUBLE, m, e, x)
    ensures ExactNumeral(m, e).Value() == Some(x)
  {
    hide Digits, Exact, Pow2, TwoTo, FiveTo, Round;
    var n: nat := if m < 0 then -m else m;
    var a := if m < 0 then -x else x;
    assert a == n as real * Pow2(e) by {
      assert (-m) as real == -(m as real);
    }
    ExactUnsigned(n, e, a);
    var r := ExactNumeral(m, e);
    ExactSigned(r.whole, r.exp);
    RoundExact(DOUBLE, x);
  }

  lemma NoExponent()
    ensures ExponentValue("") == 0
  {
  }

  ghost function ShowExactly(x: real): string {
    if IsDouble(x) then
      var m, e :| Represents(DOUBLE, m, e, x);
      ExactNumeral(m, e).Text()
    else ""
  }

  lemma ShownExactly(x: real)
    requires IsDouble(x)
    ensures ReadAs(ShowExactly(x), x)
  {
    hide Numeral.Good, Numeral.Value, Numeral.Text, ExactNumeral;
    var m, e :| Represents(DOUBLE, m, e, x) && ShowExactly(x) == ExactNumeral(m, e).Text();
    ExactNumeralGood(m, e);
    ExactNumeralValue(m, e, x);
  }

  /** There is a printer that every double is read back from. */
  lemma FaithfulPrinterExists()
    ensures exists show: Printer :: Faithful(show)
  {
    hide ReadAs, ShowExactly, IsDouble;
    var show: Printer := x => ShowExactly(x);
    forall x: real | IsDouble(x) && !IsSmallInteger(x) ensures ReadAs(show(x), x) {
      ShownExactly(x);
    }
    assert Faithful(show);
  }
}
