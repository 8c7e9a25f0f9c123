/** Binary floating point over exact reals: the values of a format, and rounding to the nearest. */
module Floats {
  import opened Wrappers

  // ----- Powers

  function Pow2(e: int): (r: real)
    ensures r > 0.0
    decreases if e < 0 then -e else e
  {
    if e == 0 then 1.0 else if e > 0 then 2.0 * Pow2(e - 1) else Pow2(e + 1) / 2.0
  }

  lemma Pow2Step(e: int)
    ensures Pow2(e + 1) == 2.0 * Pow2(e)
  {
  }

  function TwoTo(k: nat): (r: nat)
    ensures r > 0
  {
    if k == 0 then 1 else 2 * TwoTo(k - 1)
  }

  lemma Doubled(k: nat)
    ensures TwoTo(0) as real == 1.0
    ensures TwoTo(k + 1) as real == 2.0 * TwoTo(k) as real
  {
  }

  lemma DoubledProduct(x: real, t: real, p: real)
    requires x == t * p
    ensures 2.0 * x == 2.0 * t * p
  {
  }

  lemma {:induction false} Pow2Sum(e: int, k: nat, q: real, t: real, p: real)
    requires q == Pow2(e + k) && t == TwoTo(k) as real && p == Pow2(e)
    ensures q == t * p
    decreases k
  {
    hide Pow2, TwoTo;
    if k == 0 {
      Doubled(0);
    } else {
      var (q', t') := (Pow2(e + (k - 1)), TwoTo(k - 1) as real);
      Pow2Sum(e, k - 1, q', t', p);
      Pow2Step(e + (k - 1));
      Doubled(k - 1);
      DoubledProduct(q', t', p);
    }
  }

  // ----- Formats

  /** A binary format: mantissas below `top`, exponents in a range. */
  datatype Shape = Shape(top: int, minExp: int, maxExp: int)

  type Format = f: Shape | f.top > 0 && f.top % 2 == 0 && f.minExp <= f.maxExp witness Shape(2, 0, 0)

  /** binary64 and binary32. */
  const DOUBLE: Format := Shape(0x20_0000_0000_0000, -1074, 971)
  const SINGLE: Format := Shape(0x100_0000, -149, 104)

  /** The finite values of a format; the two zeros are one, as `==` has it. */
  ghost predicate IsFloat(f: Format, x: real) {
    exists m: int, e: int :: Represents(f, m, e, x)
  }

  predicate Represents(f: Format, m: int, e: int, x: real) {
    -f.top < m < f.top && f.minExp <= e <= f.maxExp && x == m as real * Pow2(e)
  }

  /** The nearest integer, a tie going to the even one. */
  function Nearest(y: real): (n: int)
    ensures n as real - 0.5 <= y <= n as real + 0.5
    ensures y == n as real + 0.5 || y == n as real - 0.5 ==> n % 2 == 0
  {
    var n := y.Floor;
    var d := y - n as real;
    if d < 0.5 || (d == 0.5 && n % 2 == 0) then n else n + 1
  }

  /** The least exponent from `e` up at which `x` has a mantissa below the top, or the greatest. */
  function ExponentOf(f: Format, x: real, e: int): (r: int)
    requires f.minExp <= e <= f.maxExp
    ensures e <= r <= f.maxExp
    ensures r < f.maxExp ==> x < f.top as real * Pow2(r)
    decreases f.maxExp - e
  {
    if e == f.maxExp || x < f.top as real * Pow2(e) then e else ExponentOf(f, x, e + 1)
  }

  /** A number in units of a power of two. */
  function InUnits(x: real, e: int): real {
    x / Pow2(e)
  }

  /** Rounding to the nearest value of the format, a tie going to the even mantissa; absent on overflow. */
  function RoundAbs(f: Format, x: real): Option<real>
    requires x >= 0.0
  {
    var e := ExponentOf(f, x, f.minExp);
    var m := Nearest(InUnits(x, e));
    if e == f.maxExp && m >= f.top then None else Some(m as real * Pow2(e))
  }

  function Round(f: Format, x: real): Option<real> {
    if x >= 0.0 then RoundAbs(f, x)
    else
      match RoundAbs(f, -x)
      case None => None
      case Some(y) => Some(-y)
  }

  // ----- Rounding is right

  lemma {:induction false} ExponentLeast(f: Format, x: real, e: int, bound: int)
    requires f.minExp <= e <= bound <= f.maxExp && x < f.top as real * Pow2(bound)
    ensures ExponentOf(f, x, e) <= bound
    decreases f.maxExp - e
  {
    if e < bound {
      ExponentLeast(f, x, e + 1, bound);
    }
  }

  lemma {:induction false} ExponentTight(f: Format, x: real, e: int)
    requires f.minExp <= e <= f.maxExp && ExponentOf(f, x, e) > e
    ensures x >= f.top as real * Pow2(ExponentOf(f, x, e) - 1)
    decreases f.maxExp - e
  {
    hide Pow2;
    if ExponentOf(f, x, e) > e + 1 {
      ExponentTight(f, x, e + 1);
    }
  }

  lemma Scaled(m: int, k: nat, e: int)
    ensures m as real * Pow2(e + k) == (m * TwoTo(k)) as real * Pow2(e)
    ensures (m as real * Pow2(e + k)) / Pow2(e) == (m * TwoTo(k)) as real
  {
    hide Pow2, TwoTo;
    Pow2Sum(e, k, Pow2(e + k), TwoTo(k) as real, Pow2(e));
    RealProduct(m, TwoTo(k));
    Associates(m as real, TwoTo(k) as real, Pow2(e));
    Cancel((m * TwoTo(k)) as real, Pow2(e));
  }

  lemma RealProduct(m: int, n: int)
    ensures (m * n) as real == m as real * n as real
  {
  }

  lemma Associates(a: real, b: real, c: real)
    ensures a * (b * c) == a * b * c
  {
  }

  lemma Cancel(x: real, p: real)
    requires p > 0.0
    ensures x * p / p == x && x / p * p == x
  {
  }

  lemma NearestOfInteger(n: int)
    ensures Nearest(n as real) == n
  {
  }

  lemma RoundAbsAt(f: Format, x: real, e: int, n: int)
    requires x >= 0.0 && e == ExponentOf(f, x, f.minExp) && InUnits(x, e) == n as real && x == n as real * Pow2(e)
    requires e == f.maxExp ==> n < f.top
    ensures RoundAbs(f, x) == Some(x)
  {
    hide Pow2, ExponentOf, Nearest, InUnits;
    NearestOfInteger(n);
  }

  /** A value of the format is rounded to itself. */
  lemma RoundAbsExact(f: Format, x: real, m: int, e: int)
    requires x >= 0.0 && Represents(f, m, e, x)
    ensures RoundAbs(f, x) == Some(x)
  {
    hide Pow2, TwoTo, ExponentOf, RoundAbs;
    Below(m, f.top, Pow2(e));
    ExponentLeast(f, x, f.minExp, e);
    var r := ExponentOf(f, x, f.minExp);
    Scaled(m, e - r, r);
    Unscaled(m);
    RoundAbsAt(f, x, r, m * TwoTo(e - r));
  }

  lemma Unscaled(m: int)
    ensures m * TwoTo(0) == m
  {
  }

  lemma Below(m: int, n: int, p: real)
    requires m < n && p > 0.0
    ensures m as real * p < n as real * p
  {
    assert (n - m) as real * p > 0.0;
    assert (n - m) as real == n as real - m as real;
  }

  lemma NegatedBy(f: Format, x: real, m: int, e: int)
    requires Represents(f, m, e, x)
    ensures Represents(f, -m, e, -x)
  {
    hide Pow2;
    assert (-m) as real == -(m as real);
  }

  lemma RoundExact(f: Format, x: real)
    requires IsFloat(f, x)
    ensures Round(f, x) == Some(x)
  {
    hide RoundAbs, Represents;
    var m, e :| Represents(f, m, e, x);
    if x >= 0.0 {
      RoundAbsExact(f, x, m, e);
    } else {
      NegatedBy(f, x, m, e);
      RoundAbsExact(f, -x, -m, e);
    }
  }

  lemma TopMantissa(f: Format, e: int, y: real)
    requires f.minExp <= e < f.maxExp && y == f.top as real * Pow2(e)
    ensures Represents(f, f.top / 2, e + 1, y)
  {
    Pow2Step(e);
    Associates((f.top / 2) as real, 2.0, Pow2(e));
  }

  /** What rounding gives is a value of the format. */
  lemma RoundAbsIsFloat(f: Format, x: real)
    requires x >= 0.0 && RoundAbs(f, x).Some?
    ensures IsFloat(f, RoundAbs(f, x).value)
  {
    hide Pow2, ExponentOf, Nearest;
    var e := ExponentOf(f, x, f.minExp);
    var p := Pow2(e);
    var m := Nearest(x / p);
    Quotient(x, f.top as real, p);
    Quotient(x, 0.0, p);
    if m < f.top {
      assert Represents(f, m, e, RoundAbs(f, x).value);
    } else {
      assert m == f.top && RoundAbs(f, x).value == f.top as real * p;
      TopMantissa(f, e, f.top as real * p);
    }
  }

  lemma Quotient(x: real, k: real, p: real)
    requires p > 0.0
    ensures x < k * p <==> x / p < k
  {
    Cancel(x, p);
    if x / p < k {
      assert (k - x / p) * p > 0.0;
    } else {
      assert (x / p - k) * p >= 0.0;
    }
  }

  lemma Negated(f: Format, x: real)
    requires IsFloat(f, x)
    ensures IsFloat(f, -x)
  {
    hide Represents;
    var m, e :| Represents(f, m, e, x);
    NegatedBy(f, x, m, e);
  }

  lemma RoundIsFloat(f: Format, x: real)
    requires Round(f, x).Some?
    ensures IsFloat(f, Round(f, x).value)
  {
    hide RoundAbs, IsFloat;
    if x >= 0.0 {
      RoundAbsIsFloat(f, x);
    } else {
      RoundAbsIsFloat(f, -x);
      Negated(f, RoundAbs(f, -x).value);
    }
  }

  function Abs(x: real): real {
    if x >= 0.0 then x else -x
  }

  lemma NearestBest(y: real, k: int)
    ensures Abs(y - Nearest(y) as real) <= Abs(y - k as real)
  {
    hide Nearest;
    var n := Nearest(y);
    if k < n {
      assert k as real <= n as real - 1.0;
    } else if k > n {
      assert k as real >= n as real + 1.0;
    }
  }

  lemma Monotone(a: real, b: real, p: real)
    requires a <= b && p > 0.0
    ensures a * p <= b * p
  {
    assert (b - a) * p >= 0.0;
  }

  lemma ScaledAbs(y: real, p: real)
    requires p > 0.0
    ensures Abs(y * p) == Abs(y) * p
  {
    if y >= 0.0 {
      Monotone(0.0, y, p);
    } else {
      assert (-y) * p > 0.0;
      assert (-y) * p == -(y * p);
    }
  }

  lemma ScaledDistance(x: real, y: real, k: real, p: real, kp: real)
    requires p > 0.0 && x == y * p && kp == k * p
    ensures Abs(x - kp) == Abs(y - k) * p
  {
    ScaledAbs(y - k, p);
    assert (y - k) * p == x - kp;
  }

  lemma NearestScaled(x: real, y: real, p: real, n: real, np: real, k: int, kp: real)
    requires p > 0.0 && x == y * p && n == Nearest(y) as real && np == n * p && kp == k as real * p
    ensures Abs(x - np) <= Abs(x - kp)
  {
    hide Nearest, Abs;
    NearestBest(y, k);
    var dn, dk := Abs(y - n), Abs(y - k as real);
    ScaledDistance(x, y, n, p, np);
    ScaledDistance(x, y, k as real, p, kp);
    Monotone(dn, dk, p);
  }

  /** No multiple of the unit in the last place is nearer. */
  lemma NearestMultiple(f: Format, x: real, p: real, k: int, kp: real)
    requires x >= 0.0 && RoundAbs(f, x).Some? && p == Pow2(ExponentOf(f, x, f.minExp)) && kp == k as real * p
    ensures Abs(x - RoundAbs(f, x).value) <= Abs(x - kp)
  {
    hide Pow2, ExponentOf, Nearest, Abs;
    Cancel(x, p);
    NearestScaled(x, x / p, p, Nearest(x / p) as real, RoundAbs(f, x).value, k, kp);
  }

  lemma {:induction false} Pow2Monotone(e: int, h: int)
    requires e <= h
    ensures Pow2(e) <= Pow2(h)
    decreases h - e
  {
    if e < h {
      Pow2Monotone(e, h - 1);
      Pow2Step(h - 1);
    }
  }

  lemma FinerProduct(f: Format, m: int, p: real, q: real)
    requires m < f.top && 0.0 < p <= q
    ensures m as real * p < (f.top / 2) as real * (2.0 * q) == f.top as real * q
  {
    var top := f.top as real;
    Below(m, f.top, p);
    Monotone(p, q, top);
    assert p * top == top * p && q * top == top * q;
    assert (f.top / 2) as real * 2.0 == top;
    Associates((f.top / 2) as real, 2.0, q);
  }

  /** A finer value is below the range of the number, and so is no nearer. */
  lemma FinerIsBelow(f: Format, x: real, d: real, m: int, e: int, r: int, p: real, kp: real)
    requires x >= 0.0 && Represents(f, m, e, d) && e < r == ExponentOf(f, x, f.minExp) && p == Pow2(r)
    requires kp == (f.top / 2) as real * p
    ensures d < kp <= x
  {
    hide Pow2, ExponentOf;
    Pow2Monotone(e, r - 1);
    FinerProduct(f, m, Pow2(e), Pow2(r - 1));
    ExponentTight(f, x, f.minExp);
    Pow2Step(r - 1);
  }

  lemma RoundAbsNearest(f: Format, x: real, d: real)
    requires x >= 0.0 && RoundAbs(f, x).Some? && IsFloat(f, d)
    ensures Abs(x - RoundAbs(f, x).value) <= Abs(x - d)
  {
    hide RoundAbs, Pow2, ExponentOf;
    var m, e :| Represents(f, m, e, d);
    var r := ExponentOf(f, x, f.minExp);
    var p := Pow2(r);
    if e >= r {
      Scaled(m, e - r, r);
      assert r + (e - r) == e;
      NearestMultiple(f, x, p, m * TwoTo(e - r), d);
    } else {
      var kp := (f.top / 2) as real * p;
      FinerIsBelow(f, x, d, m, e, r, p, kp);
      NearestMultiple(f, x, p, f.top / 2, kp);
    }
  }

  /** No value of the format is nearer to a number than what it is rounded to. */
  lemma RoundNearest(f: Format, x: real, d: real)
    requires Round(f, x).Some? && IsFloat(f, d)
    ensures Abs(x - Round(f, x).value) <= Abs(x - d)
  {
    hide RoundAbs, IsFloat;
    if x >= 0.0 {
      RoundAbsNearest(f, x, d);
    } else {
      Negated(f, d);
      RoundAbsNearest(f, -x, -d);
    }
  }

  /** The nearest integer reaches an even number from half below it on. */
  lemma NearestReaches(y: real, n: int)
    requires n % 2 == 0
    ensures Nearest(y) >= n <==> y >= n as real - 0.5
  {
    hide Nearest;
    var k := Nearest(y);
    if k < n {
      assert k as real <= n as real - 1.0;
    }
  }

  lemma HalfRange(top: int, p: real, q: real, low: real, limit: real)
    requires top >= 1 && p > 0.0 && q == 2.0 * p && low == top as real * p && limit == (top as real - 0.5) * q
    ensures low <= limit
  {
    var t := top as real;
    assert (t - 1.0) * p >= 0.0;
    assert (t - 1.0) * p == low - p;
    assert limit == 2.0 * low - p;
  }

  lemma TimesTop(top: int, p: real, q: real)
    requires top >= 1 && 0.0 < p <= q
    ensures top as real * p <= top as real * q
  {
    assert top as real * (q - p) >= 0.0;
  }

  lemma SmallExponentBelow(f: Format, a: real, e: int, limit: real)
    requires f.minExp <= e < f.maxExp && a < f.top as real * Pow2(e)
    requires limit == (f.top as real - 0.5) * Pow2(f.maxExp)
    ensures a < limit
  {
    hide Pow2;
    var p := Pow2(f.maxExp - 1);
    Pow2Monotone(e, f.maxExp - 1);
    TimesTop(f.top, Pow2(e), p);
    Pow2Step(f.maxExp - 1);
    HalfRange(f.top, p, Pow2(f.maxExp), f.top as real * p, limit);
  }

  lemma AbsOverflowIff(f: Format, a: real, limit: real)
    requires a >= 0.0 && limit == (f.top as real - 0.5) * Pow2(f.maxExp)
    ensures RoundAbs(f, a).None? <==> a >= limit
  {
    hide Pow2, ExponentOf, Nearest;
    var e := ExponentOf(f, a, f.minExp);
    if e < f.maxExp {
      SmallExponentBelow(f, a, e, limit);
    } else {
      NearestReaches(a / Pow2(f.maxExp), f.top);
      Quotient(a, f.top as real - 0.5, Pow2(f.maxExp));
    }
  }

  /** Rounding overflows exactly from half a unit above the greatest value on. */
  lemma OverflowIff(f: Format, x: real, limit: real)
    requires limit == (f.top as real - 0.5) * Pow2(f.maxExp)
    ensures Round(f, x).None? <==> Abs(x) >= limit
  {
    hide Pow2, RoundAbs;
    AbsOverflowIff(f, Abs(x), limit);
  }

  // ----- Rounding as an operation, with infinity

  /** What stands for infinity: the first number beyond the range of a format. */
  function Infinity(f: Format): real {
    f.top as real * Pow2(f.maxExp)
  }

  function Fl(f: Format, x: real): real {
    match Round(f, x)
    case Some(y) => y
    case None => if x > 0.0 then Infinity(f) else -Infinity(f)
  }

  lemma ZeroIsFloat(f: Format)
    ensures IsFloat(f, 0.0)
  {
    assert Represents(f, 0, f.minExp, 0.0);
  }

  /** Rounding never reverses an order. */
  lemma RoundMonotone(f: Format, x: real, y: real)
    requires x <= y && Round(f, x).Some? && Round(f, y).Some?
    ensures Round(f, x).value <= Round(f, y).value
  {
    hide Round, IsFloat;
    RoundIsFloat(f, x);
    RoundIsFloat(f, y);
    RoundNearest(f, x, Round(f, y).value);
    RoundNearest(f, y, Round(f, x).value);
  }

  lemma BelowBy(m: int, n: int, p: real, mp: real, np: real)
    requires m < n && p > 0.0 && mp == m as real * p && np == n as real * p
    ensures mp < np
  {
    var d := (n - m) as real;
    assert d > 0.0 && d == n as real - m as real;
    assert d * p == np - mp;
    assert d * p > 0.0;
  }

  lemma BetweenTops(m: int, top: int, p: real, q: real, x: real, b: real)
    requires -top < m < top && 0.0 < p <= q && x == m as real * p && b == top as real * q
    ensures -b < x < b
  {
    var a := top as real * p;
    BelowBy(m, top, p, x, a);
    assert (-m) as real == -(m as real);
    BelowBy(-m, top, p, -x, a);
    TimesTop(top, p, q);
  }

  lemma FloatBelowInfinity(f: Format, x: real, inf: real)
    requires IsFloat(f, x) && inf == Infinity(f)
    ensures -inf < x < inf
  {
    hide Pow2;
    var m, e :| Represents(f, m, e, x);
    Pow2Monotone(e, f.maxExp);
    BetweenTops(m, f.top, Pow2(e), Pow2(f.maxExp), x, inf);
  }

  lemma FlOverflow(f: Format, x: real)
    requires Round(f, x).None?
    ensures x != 0.0 && Fl(f, x) == if x > 0.0 then Infinity(f) else -Infinity(f)
  {
    hide RoundAbs;
    ZeroIsFloat(f);
    RoundExact(f, 0.0);
  }

  lemma OverflowUpward(f: Format, x: real, y: real)
    requires Abs(x) <= Abs(y) && Round(f, x).None?
    ensures Round(f, y).None?
  {
    hide Pow2, Round;
    var limit := (f.top as real - 0.5) * Pow2(f.maxExp);
    OverflowIff(f, x, limit);
    OverflowIff(f, y, limit);
  }

  lemma FlRange(f: Format, x: real)
    ensures -Infinity(f) <= Fl(f, x) <= Infinity(f)
  {
    hide Round, Infinity;
    InfinityPositive(f);
    if Round(f, x).Some? {
      RoundIsFloat(f, x);
      FloatBelowInfinity(f, Round(f, x).value, Infinity(f));
    }
  }

  lemma InfinityPositive(f: Format)
    ensures Infinity(f) > 0.0
  {
  }

  lemma FlMonotone(f: Format, x: real, y: real)
    requires x <= y
    ensures Fl(f, x) <= Fl(f, y)
  {
    hide Round, Infinity;
    FlRange(f, x);
    FlRange(f, y);
    InfinityPositive(f);
    if Round(f, x).Some? && Round(f, y).Some? {
      RoundMonotone(f, x, y);
    } else if Round(f, x).None? {
      FlOverflow(f, x);
      if x > 0.0 {
        OverflowUpward(f, x, y);
      }
    } else {
      FlOverflow(f, y);
      if y < 0.0 {
        OverflowUpward(f, y, x);
      }
    }
  }

  lemma InfinityOverflows(f: Format, x: real)
    requires x == Infinity(f) || x == -Infinity(f)
    ensures Round(f, x).None?
  {
    hide Pow2, Round;
    var p := Pow2(f.maxExp);
    var limit := (f.top as real - 0.5) * p;
    OverflowIff(f, x, limit);
    assert f.top as real * p - 0.5 * p == limit;
  }

  lemma FlFixes(f: Format, x: real)
    requires IsFloat(f, x)
    ensures Fl(f, x) == x
  {
    hide Round, IsFloat;
    RoundExact(f, x);
  }

  lemma FlIdempotent(f: Format, x: real)
    ensures Fl(f, Fl(f, x)) == Fl(f, x) && Fl(f, 0.0) == 0.0
  {
    hide Round, IsFloat, Infinity;
    InfinityPositive(f);
    ZeroIsFloat(f);
    FlFixes(f, 0.0);
    if Round(f, x).Some? {
      RoundIsFloat(f, x);
      FlFixes(f, Round(f, x).value);
    } else {
      InfinityOverflows(f, Fl(f, x));
    }
  }

  lemma FlIsFloatOrInfinite(f: Format, x: real)
    ensures IsFloat(f, Fl(f, x)) || Fl(f, x) == Infinity(f) || Fl(f, x) == -Infinity(f)
  {
    hide Round, IsFloat, Infinity;
    if Round(f, x).Some? {
      RoundIsFloat(f, x);
    }
  }

  /** Every binary32 value is a binary64 value. */
  lemma SingleIsDouble(x: real)
    requires IsFloat(SINGLE, x)
    ensures IsFloat(DOUBLE, x)
  {
    hide Pow2;
    var m, e :| Represents(SINGLE, m, e, x);
    assert Represents(DOUBLE, m, e, x);
  }

  /** The exponent of a number between two consecutive powers. */
  lemma ExponentIs(f: Format, x: real, e: int)
    requires f.minExp < e <= f.maxExp && f.top as real * Pow2(e - 1) <= x < f.top as real * Pow2(e)
    ensures ExponentOf(f, x, f.minExp) == e
  {
    hide Pow2, ExponentOf;
    ExponentLeast(f, x, f.minExp, e);
    var r := ExponentOf(f, x, f.minExp);
    if r < e {
      Pow2Monotone(r, e - 1);
      TimesTop(f.top, Pow2(r), Pow2(e - 1));
    }
  }

  /** Rounding by hand: with unit `p` in the last place, to the nearest multiple of it. */
  lemma FlBetween(f: Format, x: real, e: int, p: real, n: int)
    requires f.minExp < e < f.maxExp && p == Pow2(e) && 0.0 <= x
    requires f.top as real * p <= 2.0 * x < 2.0 * f.top as real * p && Nearest(x / p) == n
    ensures Fl(f, x) == n as real * p
  {
    hide Pow2, ExponentOf, Nearest;
    Pow2Step(e - 1);
    HalfUnit(f.top as real, Pow2(e - 1), p, x);
    ExponentIs(f, x, e);
  }

  lemma HalfUnit(top: real, half: real, p: real, x: real)
    requires p == 2.0 * half && top * p <= 2.0 * x < 2.0 * top * p
    ensures top * half <= x < top * p
  {
    Associates(top, 2.0, half);
    assert top * p == 2.0 * (top * half);
    assert 2.0 * top * p == 2.0 * (top * p);
  }
}
