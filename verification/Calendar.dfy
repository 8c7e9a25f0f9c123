/** The certificate validity clock: Gregorian dates to days and to Unix seconds. */
module CalendarModel {
  import opened Wrappers
  import opened Arithmetic

  // ----- The code's arithmetic

  /** Division that truncates toward zero, as on `i32`. */
  function TruncDiv(a: int, b: int): int
    requires b > 0
  {
    if a >= 0 then a / b else -((-a) / b)
  }

  /** Days since 1970-01-01, counting years from March. */
  function DaysFromCivil(year: int, m: nat, d: nat): int
    requires 1 <= m <= 12 && d >= 1
  {
    var y := if m <= 2 then year - 1 else year;
    var era := TruncDiv(if y >= 0 then y else y - 399, 400);
    var yoe := y - era * 400;
    var shifted := if m > 2 then m - 3 else m + 9;
    var doy := (153 * shifted + 2) / 5 + d - 1;
    var doe := yoe * 365 + yoe / 4 - yoe / 100 + doy;
    era * 146097 + doe - 719468
  }

  datatype DateTime = DateTime(year: int, month: nat, day: nat, hour: nat, minute: nat, second: nat)

  datatype TimeError = InvalidTime

  function GregorianToUnix(t: DateTime): Result<nat, TimeError> {
    if !(1 <= t.month <= 12) || !(1 <= t.day <= 31) || t.hour >= 24 || t.minute >= 60 || t.second >= 60 then
      Err(InvalidTime)
    else
      var days := DaysFromCivil(t.year, t.month, t.day);
      if days < 0 then Err(InvalidTime) else Ok(days * 86_400 + t.hour * 3_600 + t.minute * 60 + t.second)
  }

  // ----- The calendar, year by year and month by month

  predicate IsLeap(y: int) {
    y % 4 == 0 && (y % 100 != 0 || y % 400 == 0)
  }

  function DaysInYear(y: int): nat {
    if IsLeap(y) then 366 else 365
  }

  function DaysInMonth(y: int, m: nat): nat
    requires 1 <= m <= 12
  {
    if m == 2 then if IsLeap(y) then 29 else 28
    else if m == 4 || m == 6 || m == 9 || m == 11 then 30 else 31
  }

  /** Days from the start of 1970 to the start of `y`, negative before. */
  function DaysBeforeYear(y: int): int
    decreases if y >= 1970 then y - 1970 else 1970 - y
  {
    if y == 1970 then 0
    else if y > 1970 then DaysBeforeYear(y - 1) + DaysInYear(y - 1)
    else DaysBeforeYear(y + 1) - DaysInYear(y)
  }

  function DaysBeforeMonth(y: int, m: nat): nat
    requires 1 <= m <= 12
  {
    if m == 1 then 0 else DaysBeforeMonth(y, m - 1) + DaysInMonth(y, m - 1)
  }

  function DayNumber(y: int, m: nat, d: nat): int
    requires 1 <= m <= 12 && d >= 1
  {
    DaysBeforeYear(y) + DaysBeforeMonth(y, m) + d - 1
  }

  // ----- They agree

  /** Days before March of year `y` in the closed form. */
  function MarchDays(y: int): int {
    365 * y + y / 4 - y / 100 + y / 400
  }

  lemma EraForm(y: int)
    ensures var era := TruncDiv(if y >= 0 then y else y - 399, 400);
            var yoe := y - era * 400;
            0 <= yoe < 400 && era * 146097 + yoe * 365 + yoe / 4 - yoe / 100 == MarchDays(y)
  {
    var era := TruncDiv(if y >= 0 then y else y - 399, 400);
    var yoe := y - era * 400;
    assert era == y / 400;
    assert y / 4 == 100 * era + yoe / 4;
    assert y / 100 == 4 * era + yoe / 100;
  }

  lemma MarchStep(y: int)
    ensures MarchDays(y) == MarchDays(y - 1) + 365 + if IsLeap(y) then 1 else 0
  {
    QuotientStep(y, 4);
    QuotientStep(y, 100);
    QuotientStep(y, 400);
    MultiplesOf100(y);
  }

  /** A quotient grows by one exactly at the multiples of the divisor. */
  lemma QuotientStep(y: int, c: nat)
    requires c > 1
    ensures y / c == (y - 1) / c + if y % c == 0 then 1 else 0
  {
    var (q, r) := ((y - 1) / c, (y - 1) % c);
    if r + 1 == c {
      RemainderUnique(y, c, q + 1, 0);
    } else {
      RemainderUnique(y, c, q, r + 1);
    }
  }

  lemma MultiplesOf100(y: int)
    ensures y % 100 == 0 ==> y % 4 == 0
    ensures y % 400 == 0 ==> y % 100 == 0
  {
    if y % 100 == 0 {
      RemainderUnique(y, 4, y / 100 * 25, 0);
    }
    if y % 400 == 0 {
      RemainderUnique(y, 100, y / 400 * 4, 0);
    }
  }

  lemma CivilForm(y: int, m: nat, d: nat)
    requires 1 <= m <= 12 && d >= 1
    ensures DaysFromCivil(y, m, d) ==
            (if m <= 2 then MarchDays(y - 1) + (153 * (m + 9) + 2) / 5 else MarchDays(y) + (153 * (m - 3) + 2) / 5)
            + d - 1 - 719468
  {
    EraForm(if m <= 2 then y - 1 else y);
  }

  /** The rounding in `(153 * shifted + 2) / 5` gives each month its length. */
  lemma MonthOffset(m: nat)
    requires 1 <= m <= 11 && m != 2
    ensures var (a, b) := (if m > 2 then m - 3 else m + 9, if m > 1 then m - 2 else m + 10);
            (153 * b + 2) / 5 - (153 * a + 2) / 5 == if m == 4 || m == 6 || m == 9 || m == 11 then 30 else 31
  {
  }

  /** The first of a month, counted from the first of January by the code and by the calendar. */
  lemma {:induction false} MonthsAgree(y: int, m: nat)
    requires 1 <= m <= 12
    ensures DaysFromCivil(y, m, 1) == DaysFromCivil(y, 1, 1) + DaysBeforeMonth(y, m)
  {
    hide DaysFromCivil, MarchDays, IsLeap;
    if m > 1 {
      MonthsAgree(y, m - 1);
      CivilForm(y, m, 1);
      CivilForm(y, m - 1, 1);
      if m == 3 {
        MarchStep(y);
      } else {
        MonthOffset(m - 1);
      }
    }
  }

  lemma MarchDays1969()
    ensures MarchDays(1969) == 719162
  {
  }

  lemma {:induction false} YearsAgree(y: int)
    ensures DaysFromCivil(y, 1, 1) == DaysBeforeYear(y)
    decreases if y >= 1970 then y - 1970 else 1970 - y
  {
    hide DaysFromCivil, IsLeap, MarchDays;
    CivilForm(y, 1, 1);
    if y == 1970 {
      assert MarchDays(1969) == 719162 by { MarchDays1969(); }
    } else if y > 1970 {
      YearsAgree(y - 1);
      CivilForm(y - 1, 1, 1);
      MarchStep(y - 1);
    } else {
      YearsAgree(y + 1);
      CivilForm(y + 1, 1, 1);
      MarchStep(y);
    }
  }

  /** For every year, the closed form is the day count from the leap-year rule. */
  lemma CivilIsDayNumber(y: int, m: nat, d: nat)
    requires 1 <= m <= 12 && d >= 1
    ensures DaysFromCivil(y, m, d) == DayNumber(y, m, d)
  {
    YearsAgree(y);
    MonthsAgree(y, m);
  }

  // ----- Order

  predicate ValidTime(t: DateTime) {
    && 1 <= t.month <= 12 && 1 <= t.day <= DaysInMonth(t.year, t.month)
    && t.hour < 24 && t.minute < 60 && t.second < 60
  }

  predicate Earlier(a: DateTime, b: DateTime) {
    || a.year < b.year
    || (a.year == b.year && (
       || a.month < b.month
       || (a.month == b.month && (
          || a.day < b.day
          || (a.day == b.day && a.hour * 3600 + a.minute * 60 + a.second < b.hour * 3600 + b.minute * 60 + b.second)))))
  }

  /** A month ends where the next begins, and December where the year does. */
  lemma {:induction false} MonthsInOrder(y: int, m: nat, n: nat)
    requires 1 <= m < n <= 12
    ensures DaysBeforeMonth(y, m) + DaysInMonth(y, m) <= DaysBeforeMonth(y, n)
  {
    if m < n - 1 {
      MonthsInOrder(y, m, n - 1);
    }
  }

  lemma YearLength(y: int)
    ensures DaysBeforeMonth(y, 12) + DaysInMonth(y, 12) == DaysInYear(y)
  {
    var feb := DaysInMonth(y, 2);
    assert DaysBeforeMonth(y, 2) == 31;
    assert DaysBeforeMonth(y, 3) == 31 + feb;
    assert DaysBeforeMonth(y, 4) == 62 + feb;
    assert DaysBeforeMonth(y, 5) == 92 + feb;
    assert DaysBeforeMonth(y, 6) == 123 + feb;
    assert DaysBeforeMonth(y, 7) == 153 + feb;
    assert DaysBeforeMonth(y, 8) == 184 + feb;
    assert DaysBeforeMonth(y, 9) == 215 + feb;
    assert DaysBeforeMonth(y, 10) == 245 + feb;
    assert DaysBeforeMonth(y, 11) == 276 + feb;
    assert DaysBeforeMonth(y, 12) == 306 + feb;
  }

  /** Even a day past the end of its month is within the year: December has all 31. */
  lemma DateWithinYear(y: int, m: nat, d: nat)
    requires 1 <= m <= 12 && 1 <= d <= 31
    ensures DaysBeforeYear(y) <= DayNumber(y, m, d) < DaysBeforeYear(y) + DaysInYear(y)
  {
    YearLength(y);
    if m < 11 {
      MonthsInOrder(y, m, m + 1);
      MonthsInOrder(y, m + 1, 12);
    }
  }

  lemma {:induction false} YearsInOrder(y: int, z: int)
    requires y < z
    ensures DaysBeforeYear(y) + DaysInYear(y) <= DaysBeforeYear(z)
    decreases z - y
  {
    if y + 1 < z {
      YearsInOrder(y + 1, z);
    }
    assert DaysBeforeYear(y + 1) == DaysBeforeYear(y) + DaysInYear(y);
  }

  lemma EarlierDays(a: DateTime, b: DateTime)
    requires ValidTime(a) && ValidTime(b) && Earlier(a, b)
    ensures var (x, z) := (DayNumber(a.year, a.month, a.day), DayNumber(b.year, b.month, b.day));
            x < z || (x == z && a.day == b.day && a.month == b.month && a.year == b.year)
  {
    if a.year < b.year {
      DateWithinYear(a.year, a.month, a.day);
      DateWithinYear(b.year, b.month, b.day);
      YearsInOrder(a.year, b.year);
    } else if a.month < b.month {
      MonthsInOrder(a.year, a.month, b.month);
    }
  }

  predicate FieldsInRange(t: DateTime) {
    1 <= t.month <= 12 && 1 <= t.day <= 31 && t.hour < 24 && t.minute < 60 && t.second < 60
  }

  /** The conversion succeeds exactly from 1970 on, for any day up to 31. */
  lemma UnixFrom1970(t: DateTime)
    ensures GregorianToUnix(t).Ok? <==> FieldsInRange(t) && t.year >= 1970
    ensures GregorianToUnix(t).Ok? ==>
      GregorianToUnix(t).value == DayNumber(t.year, t.month, t.day) * 86_400 + t.hour * 3_600 + t.minute * 60 + t.second
  {
    hide DaysFromCivil, DayNumber;
    if FieldsInRange(t) {
      CivilIsDayNumber(t.year, t.month, t.day);
      DateWithinYear(t.year, t.month, t.day);
      if t.year > 1970 { YearsInOrder(1970, t.year); }
      if t.year < 1970 { YearsInOrder(t.year, 1970); }
    }
  }

  /** And it is strictly increasing on them. */
  lemma UnixIncreasing(a: DateTime, b: DateTime)
    requires ValidTime(a) && ValidTime(b) && a.year >= 1970 && Earlier(a, b)
    ensures GregorianToUnix(a).Ok? && GregorianToUnix(b).Ok? && GregorianToUnix(a).value < GregorianToUnix(b).value
  {
    hide DayNumber, GregorianToUnix;
    UnixFrom1970(a);
    UnixFrom1970(b);
    EarlierDays(a, b);
  }

  /** The thirtieth of February is taken for the second of March. */
  lemma FebruaryThirtieth()
    ensures GregorianToUnix(DateTime(2023, 2, 30, 0, 0, 0)) == GregorianToUnix(DateTime(2023, 3, 2, 0, 0, 0))
    ensures GregorianToUnix(DateTime(2023, 2, 30, 0, 0, 0)).Ok?
  {
    hide GregorianToUnix;
    ImpossibleDatesRollOver(DateTime(2023, 2, 30, 0, 0, 0));
    UnixFrom1970(DateTime(2023, 2, 30, 0, 0, 0));
  }

  /** Days past the end of a month are accepted and roll over into the next month. */
  lemma ImpossibleDatesRollOver(t: DateTime)
    requires 1 <= t.month <= 11 && DaysInMonth(t.year, t.month) < t.day <= 31
    ensures GregorianToUnix(t) ==
            GregorianToUnix(t.(month := t.month + 1, day := t.day - DaysInMonth(t.year, t.month)))
  {
    hide DaysFromCivil;
    CivilIsDayNumber(t.year, t.month, t.day);
    CivilIsDayNumber(t.year, t.month + 1, t.day - DaysInMonth(t.year, t.month));
  }
}
