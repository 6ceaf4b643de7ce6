/** Proleptic Gregorian calendar arithmetic in UTC, on days counted from
    1970-01-01 (day 0, a Thursday): what Spark's `hour`, `dayofmonth`,
    `weekofyear`, `month`, `year` and `dayofweek` compute from a timestamp. */
module Calendar {

  predicate IsLeapYear(y: int)
  {
    y % 4 == 0 && (y % 100 != 0 || y % 400 == 0)
  }

  function YearLength(y: int): int
  {
    if IsLeapYear(y) then 366 else 365
  }

  /** The number of leap years among 1..x (negated count below 1). */
  function LeapsThrough(x: int): int
  {
    x / 4 - x / 100 + x / 400
  }

  /** Days from 1970-01-01 to January 1 of year `y` (negative before 1970). */
  function DaysBeforeYear(y: int): int
  {
    365 * (y - 1970) + LeapsThrough(y - 1) - LeapsThrough(1969)
  }

  /** Consecutive New Year's days are a year length apart. */
  lemma DaysBeforeYearStep(y: int)
    ensures DaysBeforeYear(y + 1) == DaysBeforeYear(y) + YearLength(y)
  {
    QuotientStep4(y);
    QuotientStep100(y);
    QuotientStep400(y);
    DivisibilityChain(y);
  }

  /** Multiples of 400 are multiples of 100, which are multiples of 4. */
  lemma DivisibilityChain(y: int)
    ensures y % 400 == 0 ==> y % 100 == 0
    ensures y % 100 == 0 ==> y % 4 == 0
  {
    if y % 400 == 0 {
      HundredsDivide(4 * (y / 400), y);
    }
    if y % 100 == 0 {
      FoursDivide(25 * (y / 100), y);
    }
  }

  lemma HundredsDivide(m: int, y: int)
    requires y == 100 * m
    ensures y % 100 == 0
  {
  }

  lemma FoursDivide(m: int, y: int)
    requires y == 4 * m
    ensures y % 4 == 0
  {
  }

  /** Quotients by 4, 100 and 400 grow by one exactly at multiples. */
  lemma QuotientStep4(y: int)
    ensures y / 4 - (y - 1) / 4 == if y % 4 == 0 then 1 else 0
  {
  }

  lemma QuotientStep100(y: int)
    ensures y / 100 - (y - 1) / 100 == if y % 100 == 0 then 1 else 0
  {
  }

  lemma QuotientStep400(y: int)
    ensures y / 400 - (y - 1) / 400 == if y % 400 == 0 then 1 else 0
  {
  }

  /** New Year's days increase with the year. */
  lemma {:induction false} DaysBeforeYearMonotonic(a: int, b: int)
    requires a <= b
    ensures DaysBeforeYear(a) <= DaysBeforeYear(b)
    ensures a < b ==> DaysBeforeYear(a + 1) <= DaysBeforeYear(b)
    decreases b - a
  {
    if a < b {
      DaysBeforeYearStep(a);
      DaysBeforeYearMonotonic(a + 1, b);
    }
  }

  /** From 1970 on, a year has at least 365 days. */
  lemma {:induction false} DaysBeforeYearLowerBound(y: int)
    requires y >= 1970
    ensures DaysBeforeYear(y) >= 365 * (y - 1970)
    decreases y - 1970
  {
    if y > 1970 {
      DaysBeforeYearStep(y - 1);
      DaysBeforeYearLowerBound(y - 1);
    }
  }

  /** Days from January 1 to the first day of month `m` (13 meaning the next January 1). */
  function DaysBeforeMonth(y: int, m: int): int
    requires 1 <= m <= 13
  {
    var common := [0, 31, 59, 90, 120, 151, 181, 212, 243, 273, 304, 334, 365][m - 1];
    if m > 2 && IsLeapYear(y) then common + 1 else common
  }

  function DaysInMonth(y: int, m: int): int
    requires 1 <= m <= 12
  {
    DaysBeforeMonth(y, m + 1) - DaysBeforeMonth(y, m)
  }

  /** Month lengths lie between 28 and 31 days and add up to the year. */
  lemma DaysInMonthBounds(y: int, m: int)
    requires 1 <= m <= 12
    ensures 28 <= DaysInMonth(y, m) <= 31
    ensures DaysBeforeMonth(y, 1) == 0 && DaysBeforeMonth(y, 13) == YearLength(y)
  {
  }

  /** The first days of the months increase. */
  lemma DaysBeforeMonthMonotonic(y: int, a: int, b: int)
    requires 1 <= a < b <= 13
    ensures DaysBeforeMonth(y, a + 1) <= DaysBeforeMonth(y, b)
  {
  }

  /** A calendar date. */
  datatype Date = Date(year: int, month: int, day: int)

  predicate ValidDate(d: Date)
  {
    1 <= d.month <= 12 && 1 <= d.day <= DaysInMonth(d.year, d.month)
  }

  /** The day number of a date. */
  function DaysFromCivil(d: Date): int
    requires 1 <= d.month <= 12
  {
    DaysBeforeYear(d.year) + DaysBeforeMonth(d.year, d.month) + d.day - 1
  }

  /** The year holding day `n`, searching down from year `y`. */
  function YearFrom(n: int, y: int): (r: int)
    requires n < DaysBeforeYear(y)
    ensures DaysBeforeYear(r) <= n < DaysBeforeYear(r + 1)
    decreases DaysBeforeYear(y) - n
  {
    DaysBeforeYearStep(y - 1);
    if DaysBeforeYear(y - 1) <= n then y - 1 else YearFrom(n, y - 1)
  }

  /** A year whose New Year's day comes after day `n`. */
  function YearAfter(n: int): (y: int)
    ensures n < DaysBeforeYear(y)
  {
    if n < 0 then 1970
    else
      DaysBeforeYearLowerBound(1971 + n / 365);
      1971 + n / 365
  }

  /** The year holding day `n`. */
  function YearOfDay(n: int): (y: int)
    ensures DaysBeforeYear(y) <= n < DaysBeforeYear(y + 1)
  {
    YearFrom(n, YearAfter(n))
  }

  /** Exactly one year holds a given day. */
  lemma YearOfDayUnique(n: int, y: int)
    requires DaysBeforeYear(y) <= n < DaysBeforeYear(y + 1)
    ensures YearOfDay(n) == y
  {
    var r := YearOfDay(n);
    if r < y {
      DaysBeforeYearMonotonic(r, y);
    } else if y < r {
      DaysBeforeYearMonotonic(y, r);
    }
  }

  /** The month holding day-of-year `doy`, searching down from month `m`. */
  function MonthFrom(y: int, doy: int, m: int): (r: int)
    requires 1 <= m <= 12 && 0 <= doy < DaysBeforeMonth(y, m + 1)
    ensures 1 <= r <= m && DaysBeforeMonth(y, r) <= doy < DaysBeforeMonth(y, r + 1)
    decreases m
  {
    if DaysBeforeMonth(y, m) <= doy then m else MonthFrom(y, doy, m - 1)
  }

  /** The date of day-of-year `doy` (0 being January 1) in year `y`. */
  function DateOfYearDay(y: int, doy: int): (d: Date)
    requires 0 <= doy < YearLength(y)
    ensures ValidDate(d) && d.year == y
    ensures DaysBeforeMonth(y, d.month) + d.day - 1 == doy
  {
    DaysInMonthBounds(y, 1);
    var m := MonthFrom(y, doy, 12);
    Date(y, m, doy - DaysBeforeMonth(y, m) + 1)
  }

  /** The date of day `n`: a valid date whose day number is `n`. */
  function CivilFromDays(n: int): (d: Date)
    ensures ValidDate(d)
    ensures DaysFromCivil(d) == n
  {
    var y := YearOfDay(n);
    DaysBeforeYearStep(y);
    DateOfYearDay(y, n - DaysBeforeYear(y))
  }

  /** Exactly one month holds a given day of the year. */
  lemma MonthFromUnique(y: int, doy: int, m: int)
    requires 1 <= m <= 12 && DaysBeforeMonth(y, m) <= doy < DaysBeforeMonth(y, m + 1)
    ensures doy < DaysBeforeMonth(y, 13) && MonthFrom(y, doy, 12) == m
  {
    if m < 12 {
      DaysBeforeMonthMonotonic(y, m, 13);
    }
    var r := MonthFrom(y, doy, 12);
    if r < m {
      DaysBeforeMonthMonotonic(y, r, m);
    } else if m < r {
      DaysBeforeMonthMonotonic(y, m, r);
    }
  }

  /** A valid date lies within its own year. */
  lemma DateInItsYear(d: Date)
    requires ValidDate(d)
    ensures YearOfDay(DaysFromCivil(d)) == d.year
  {
    var y, n := d.year, DaysFromCivil(d);
    var before := DaysBeforeMonth(y, d.month);
    assert 0 <= before && before + d.day - 1 < YearLength(y) by {
      DaysInMonthBounds(y, d.month);
      if d.month < 12 {
        DaysBeforeMonthMonotonic(y, d.month, 13);
      }
    }
    DaysBeforeYearStep(y);
    assert DaysBeforeYear(y) <= n < DaysBeforeYear(y + 1);
    YearOfDayUnique(n, y);
  }

  /** A valid date is recovered from its day of the year. */
  lemma DateOfYearDayInverse(d: Date)
    requires ValidDate(d)
    ensures DaysBeforeMonth(d.year, d.month) + d.day - 1 < YearLength(d.year)
    ensures DateOfYearDay(d.year, DaysBeforeMonth(d.year, d.month) + d.day - 1) == d
  {
    var doy := DaysBeforeMonth(d.year, d.month) + d.day - 1;
    DaysInMonthBounds(d.year, d.month);
    MonthFromUnique(d.year, doy, d.month);
  }

  /** Day numbers and valid dates correspond one to one. */
  lemma CivilFromDaysInverse(d: Date)
    requires ValidDate(d)
    ensures CivilFromDays(DaysFromCivil(d)) == d
  {
    var n := DaysFromCivil(d);
    DateInItsYear(d);
    DateOfYearDayInverse(d);
    assert n - DaysBeforeYear(d.year) == DaysBeforeMonth(d.year, d.month) + d.day - 1;
  }

  /** `dayofweek`: 1 = Sunday, ..., 7 = Saturday. */
  function DayOfWeek(n: int): (w: int)
    ensures 1 <= w <= 7
  {
    (n + 4) % 7 + 1
  }

  /** ISO-8601 day of the week: 1 = Monday, ..., 7 = Sunday. */
  function IsoDayOfWeek(n: int): (w: int)
    ensures 1 <= w <= 7
  {
    (n + 3) % 7 + 1
  }

  /** The Thursday of the Monday-to-Sunday week holding day `n`: the one
      Thursday `t` with `n` among the days `t - 3` (Monday) to `t + 3` (Sunday). */
  function WeekThursday(n: int): (t: int)
    ensures IsoDayOfWeek(t) == 4
    ensures t - 3 <= n <= t + 3
  {
    n - IsoDayOfWeek(n) + 4
  }

  /** The number of the week whose Thursday is day `t`, counting from the week
      holding the first Thursday of `t`'s year. */
  function WeekOfThursday(t: int): (w: int)
    ensures 1 <= w <= 53
  {
    var y := YearOfDay(t);
    DaysBeforeYearStep(y);
    (t - DaysBeforeYear(y)) / 7 + 1
  }

  /** `weekofyear`: the ISO-8601 week number. A week runs Monday to Sunday and
      belongs to the year holding its Thursday; week 1 holds that year's
      first Thursday. */
  function WeekOfYear(n: int): (w: int)
    ensures 1 <= w <= 53
  {
    WeekOfThursday(WeekThursday(n))
  }

  /** Days of one Monday-to-Sunday week share their week number. */
  lemma WeekRunsMondayToSunday(n: int)
    requires IsoDayOfWeek(n) < 7
    ensures WeekOfYear(n + 1) == WeekOfYear(n)
  {
    assert WeekThursday(n + 1) == WeekThursday(n);
  }

  /** The Thursday seven days later is the next week's Thursday. */
  lemma WeekThursdayShift(n: int)
    ensures WeekThursday(n + 7) == WeekThursday(n) + 7
  {
    assert IsoDayOfWeek(n + 7) == IsoDayOfWeek(n);
  }

  /** Seven days on, in the same year, a Thursday has the next number. */
  lemma WeekOfThursdaySameYear(t: int)
    requires YearOfDay(t + 7) == YearOfDay(t)
    ensures WeekOfThursday(t + 7) == WeekOfThursday(t) + 1
  {
    var d := t - DaysBeforeYear(YearOfDay(t));
    assert (d + 7) / 7 == d / 7 + 1;
  }

  /** When day `t` lies in year `y` and day `t + 7` in another year `y2`, then
      `y2` is the next year and `t + 7` lies in its first seven days. */
  lemma NextYearWithinWeek(t: int, y: int, y2: int)
    requires DaysBeforeYear(y) <= t < DaysBeforeYear(y + 1)
    requires DaysBeforeYear(y2) <= t + 7 < DaysBeforeYear(y2 + 1)
    requires y2 != y
    ensures y2 == y + 1
    ensures DaysBeforeYear(y + 1) <= t + 7 < DaysBeforeYear(y + 1) + 7
  {
    if y2 < y {
      DaysBeforeYearMonotonic(y2, y);
    } else if y2 > y + 1 {
      DaysBeforeYearMonotonic(y + 1, y2 - 1);
      DaysBeforeYearStep(y2 - 1);
    }
  }

  /** Seven days on, in another year, a Thursday is the first of the next year. */
  lemma WeekOfThursdayNewYear(t: int)
    requires YearOfDay(t + 7) != YearOfDay(t)
    ensures YearOfDay(t + 7) == YearOfDay(t) + 1 && WeekOfThursday(t + 7) == 1
  {
    NextYearWithinWeek(t, YearOfDay(t), YearOfDay(t + 7));
    var e := t + 7 - DaysBeforeYear(YearOfDay(t + 7));
    assert 0 <= e < 7;
    assert e / 7 == 0;
  }

  /** A week later the week number goes up by one, unless the later week's
      Thursday falls in the next year, where numbering restarts at week 1. */
  lemma WeekOfYearStep(n: int)
    ensures YearOfDay(WeekThursday(n + 7)) == YearOfDay(WeekThursday(n)) ==>
      WeekOfYear(n + 7) == WeekOfYear(n) + 1
    ensures YearOfDay(WeekThursday(n + 7)) != YearOfDay(WeekThursday(n)) ==>
      YearOfDay(WeekThursday(n + 7)) == YearOfDay(WeekThursday(n)) + 1 && WeekOfYear(n + 7) == 1
  {
    WeekThursdayShift(n);
    var t := WeekThursday(n);
    if YearOfDay(t + 7) == YearOfDay(t) {
      WeekOfThursdaySameYear(t);
    } else {
      WeekOfThursdayNewYear(t);
    }
  }

  /** The week holding January 4 is week 1. */
  lemma JanuaryFourthInWeekOne(y: int)
    ensures WeekOfYear(DaysFromCivil(Date(y, 1, 4))) == 1
  {
    var n := DaysFromCivil(Date(y, 1, 4));
    assert n == DaysBeforeYear(y) + 3;
    var t := WeekThursday(n);
    DaysBeforeYearStep(y);
    YearOfDayUnique(t, y);
    assert WeekOfThursday(t) == 1;
  }

  /** Seven days on, the weekday repeats; one day on, it advances cyclically. */
  lemma DayOfWeekCycle(n: int)
    ensures DayOfWeek(n + 7) == DayOfWeek(n)
    ensures DayOfWeek(n + 1) == if DayOfWeek(n) == 7 then 1 else DayOfWeek(n) + 1
  {
  }

  /** New Year's days of 2018 and 2019. */
  lemma NewYears2018And2019()
    ensures DaysBeforeYear(2018) == 17532 && DaysBeforeYear(2019) == 17897
  {
  }

  /** Day 17836 is 1 November 2018. */
  lemma NovemberFirst2018()
    ensures CivilFromDays(17836) == Date(2018, 11, 1)
  {
    NewYears2018And2019();
    assert DaysFromCivil(Date(2018, 11, 1)) == 17836;
    CivilFromDaysInverse(Date(2018, 11, 1));
  }

  /** Day 17836 is a Thursday in ISO week 44. */
  lemma NovemberFirst2018Week()
    ensures WeekOfYear(17836) == 44 && DayOfWeek(17836) == 5
  {
    NewYears2018And2019();
    assert WeekThursday(17836) == 17836;
    YearOfDayUnique(17836, 2018);
  }
}
