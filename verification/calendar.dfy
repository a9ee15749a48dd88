/**
 * The part of the ECMAScript `Date` object that the meal planner relies on
 * (section 21.4 of ECMA-262): the proleptic Gregorian leap-year rule, day
 * numbers counted from 1 January 1970, `MakeDay`, `WeekDay`, and the
 * two-digit-year rule of the `Date(year, month, day)` constructor.
 *
 * Months are 0-based throughout, as in `Date`.
 */
module Calendar {

  /** A calendar date as `getFullYear`, `getMonth` and `getDate` report it. */
  datatype CivilDate = CivilDate(year: int, month: int, day: int)

  /** Gregorian leap year: divisible by 4, and not by 100 unless by 400. */
  predicate IsLeapYear(y: int) {
    y % 4 == 0 && (y % 100 != 0 || y % 400 == 0)
  }

  function DaysInYear(y: int): (n: int)
    ensures n == 365 || n == 366
    ensures n == 366 <==> IsLeapYear(y)
  {
    if IsLeapYear(y) then 366 else 365
  }

  /** Number of days in month `m` (0 = January) of year `y`. */
  function MonthLength(y: int, m: int): (n: int)
    requires 0 <= m < 12
    ensures 28 <= n <= 31
    ensures m == 1 ==> n == (if IsLeapYear(y) then 29 else 28)
    ensures m != 1 ==> n == (if m in {3, 5, 8, 10} then 30 else 31)
  {
    if m == 1 then (if IsLeapYear(y) then 29 else 28)
    else if m == 3 || m == 5 || m == 8 || m == 10 then 30
    else 31
  }

  /** Days of year `y` that come before the first of month `m`. */
  function MonthStart(y: int, m: int): (n: int)
    requires 0 <= m < 12
  {
    var leap := if IsLeapYear(y) then 1 else 0;
    if m == 0 then 0
    else if m == 1 then 31
    else
      [59, 90, 120, 151, 181, 212, 243, 273, 304, 334][m - 2] + leap
  }

  /** A date that names a day which exists. */
  predicate IsValidDate(d: CivilDate) {
    0 <= d.month < 12 && 1 <= d.day <= MonthLength(d.year, d.month)
  }

  /** ECMA-262 DayFromYear: the day number of 1 January of year `y`. */
  function DayFromYear(y: int): (n: int)
    ensures y == 1970 ==> n == 0
  {
    365 * (y - 1970) + (y - 1969) / 4 - (y - 1901) / 100 + (y - 1601) / 400
  }

  /**
   * ECMA-262 MakeDay for a year, a month and a date that may lie outside
   * 0..11 and 1..31: the month is carried into the year and the date is
   * counted from the first of that month, so date 0 is the day before.
   */
  function MakeDay(y: int, m: int, d: int): (n: int)
    ensures 12 <= m < 24 ==> n == DayFromYear(y + 1) + MonthStart(y + 1, m - 12) + d - 1
  {
    MonthCarry(m);
    var ym := y + m / 12;
    DayFromYear(ym) + MonthStart(ym, m % 12) + d - 1
  }

  lemma MonthCarry(m: int)
    ensures 12 <= m < 24 ==> m / 12 == 1 && m % 12 == m - 12
  {
  }

  /** ECMA-262 WeekDay: 0 = Sunday; day 0 (1 January 1970) was a Thursday. */
  function WeekDay(dayNumber: int): (w: int)
    ensures 0 <= w < 7
  {
    (dayNumber + 4) % 7
  }

  /** The constructor `Date(year, month, day)` reads years 0..99 as 1900..1999. */
  function DateYear(year: int): (y: int)
    ensures 0 <= year <= 99 ==> y == 1900 + year
    ensures !(0 <= year <= 99) ==> y == year
  {
    if 0 <= year <= 99 then 1900 + year else year
  }

  /**
   * `new Date(year, month + 1, 0).getDate()` for `month` in 0..11: the last
   * date of `month` in the year the constructor reads.
   */
  function DaysInMonth(year: int, month: int): (n: int)
    requires 0 <= month < 12
    ensures 28 <= n <= 31
  {
    MonthLength(DateYear(year), month)
  }

  /** `new Date(year, month, 1).getDay()`: the weekday of the first of the month. */
  function FirstWeekDay(year: int, month: int): (w: int)
    requires 0 <= month < 12
    ensures 0 <= w < 7
  {
    WeekDay(MakeDay(DateYear(year), month, 1))
  }

  // ---------------------------------------------------------------------
  // Properties of the day numbering

  /** Consecutive years are DaysInYear apart. */
  lemma DayFromNextYear(y: int)
    ensures DayFromYear(y + 1) == DayFromYear(y) + DaysInYear(y)
  {
    var a := (y - 1968) / 4 - (y - 1969) / 4;
    var b := (y - 1900) / 100 - (y - 1901) / 100;
    var c := (y - 1600) / 400 - (y - 1601) / 400;
    StepBy4(y);
    StepBy100(y);
    StepBy400(y);
    DivisorsOf400(y);
    assert DayFromYear(y + 1) - DayFromYear(y) == 365 + a - b + c;
  }

  // Crossing into year y + 1 adds one to a count of multiples exactly when
  // y is such a multiple.

  lemma StepBy4(y: int)
    ensures (y - 1968) / 4 - (y - 1969) / 4 == (if y % 4 == 0 then 1 else 0)
  {
  }

  lemma StepBy100(y: int)
    ensures (y - 1900) / 100 - (y - 1901) / 100 == (if y % 100 == 0 then 1 else 0)
  {
  }

  lemma StepBy400(y: int)
    ensures (y - 1600) / 400 - (y - 1601) / 400 == (if y % 400 == 0 then 1 else 0)
  {
  }

  lemma DivisorsOf400(y: int)
    ensures y % 400 == 0 ==> y % 100 == 0
    ensures y % 100 == 0 ==> y % 4 == 0
  {
  }

  /** Each month begins where the previous one ended. */
  lemma MonthStartStep(y: int, m: int)
    requires 0 <= m < 11
    ensures MonthStart(y, m + 1) == MonthStart(y, m) + MonthLength(y, m)
  {
  }

  lemma LastMonthEndsYear(y: int)
    ensures MonthStart(y, 11) + MonthLength(y, 11) == DaysInYear(y)
  {
  }

  /**
   * The "day 0 of the next month" trick: `MakeDay(y, m + 1, 0)` is the same
   * day as the last date of month `m`, also when `m` is December and the
   * next month lies in the next year.
   */
  lemma DayZeroIsLastDay(y: int, m: int)
    requires 0 <= m < 12
    ensures MakeDay(y, m + 1, 0) == MakeDay(y, m, MonthLength(y, m))
  {
    if m < 11 {
      MakeDayInYear(y, m + 1, 0);
      MakeDayInYear(y, m, MonthLength(y, m));
      MonthStartStep(y, m);
    } else {
      DecemberDayZero(y);
    }
  }

  lemma DecemberDayZero(y: int)
    ensures MakeDay(y, 12, 0) == MakeDay(y, 11, 31)
  {
    assert MakeDay(y, 12, 0) == DayFromYear(y + 1) + MonthStart(y + 1, 0) - 1;
    MakeDayInYear(y, 11, 31);
    DayFromNextYear(y);
    LastMonthEndsYear(y);
  }

  /** The first of the next month follows the last day of this month. */
  lemma NextMonthStart(y: int, m: int)
    requires 0 <= m < 12
    ensures MakeDay(y, m + 1, 1) == MakeDay(y, m, 1) + MonthLength(y, m)
  {
    DayZeroIsLastDay(y, m);
  }

  /** Within a year, MakeDay counts from the year's first day. */
  lemma MakeDayInYear(y: int, m: int, d: int)
    requires 0 <= m < 12
    ensures MakeDay(y, m, d) == DayFromYear(y) + MonthStart(y, m) + d - 1
  {
  }

  /** A valid date's day number lies inside its year. */
  lemma DayWithinYear(d: CivilDate)
    requires IsValidDate(d)
    ensures DayFromYear(d.year) <= MakeDay(d.year, d.month, d.day) < DayFromYear(d.year + 1)
  {
    DayFromNextYear(d.year);
    MakeDayInYear(d.year, d.month, d.day);
    if d.month < 11 {
      MonthStartStep(d.year, d.month);
      MonthStartsBelow(d.year, d.month + 1);
    } else {
      LastMonthEndsYear(d.year);
    }
  }

  lemma MonthStartsBelow(y: int, m: int)
    requires 0 <= m < 12
    ensures 0 <= MonthStart(y, m) && MonthStart(y, m) + MonthLength(y, m) <= DaysInYear(y)
  {
  }

  /** Years occupy disjoint, increasing ranges of day numbers. */
  lemma {:induction false} DayFromYearMonotone(y1: int, y2: int)
    requires y1 < y2
    ensures DayFromYear(y1 + 1) <= DayFromYear(y2)
    decreases y2 - y1
  {
    if y1 + 1 < y2 {
      DayFromYearMonotone(y1 + 1, y2);
      DayFromNextYear(y1 + 1);
    }
  }

  /** Two valid dates of the same year and day number are in the same month. */
  lemma SameMonth(y: int, m1: int, d1: int, m2: int, d2: int)
    requires IsValidDate(CivilDate(y, m1, d1)) && IsValidDate(CivilDate(y, m2, d2))
    requires MonthStart(y, m1) + d1 == MonthStart(y, m2) + d2
    ensures m1 == m2
  {
    if m1 < m2 {
      MonthStartsIncrease(y, m1, m2);
    } else if m2 < m1 {
      MonthStartsIncrease(y, m2, m1);
    }
  }

  lemma {:induction false} MonthStartsIncrease(y: int, m1: int, m2: int)
    requires 0 <= m1 < m2 < 12
    ensures MonthStart(y, m1) + MonthLength(y, m1) <= MonthStart(y, m2)
    decreases m2 - m1
  {
    MonthStartStep(y, m1);
    if m1 + 1 < m2 {
      MonthStartsIncrease(y, m1 + 1, m2);
    }
  }

  /**
   * A day number names exactly one valid date: the date that `getFullYear`,
   * `getMonth` and `getDate` read back from it is unique.
   */
  lemma DateOfDayNumberUnique(a: CivilDate, b: CivilDate)
    requires IsValidDate(a) && IsValidDate(b)
    requires MakeDay(a.year, a.month, a.day) == MakeDay(b.year, b.month, b.day)
    ensures a == b
  {
    SameYear(a, b);
    MakeDayInYear(a.year, a.month, a.day);
    MakeDayInYear(b.year, b.month, b.day);
    SameMonth(a.year, a.month, a.day, b.month, b.day);
  }

  /** Two valid dates with the same day number are in the same year. */
  lemma SameYear(a: CivilDate, b: CivilDate)
    requires IsValidDate(a) && IsValidDate(b)
    requires MakeDay(a.year, a.month, a.day) == MakeDay(b.year, b.month, b.day)
    ensures a.year == b.year
  {
    var n := MakeDay(a.year, a.month, a.day);
    assert DayFromYear(a.year) <= n < DayFromYear(a.year + 1) by { DayWithinYear(a); }
    assert DayFromYear(b.year) <= n < DayFromYear(b.year + 1) by { DayWithinYear(b); }
    YearOfDayNumber(a.year, b.year, n);
  }

  /** A day number lies in the range of at most one year. */
  lemma YearOfDayNumber(y1: int, y2: int, n: int)
    requires DayFromYear(y1) <= n < DayFromYear(y1 + 1)
    requires DayFromYear(y2) <= n < DayFromYear(y2 + 1)
    ensures y1 == y2
  {
    if y1 < y2 {
      DayFromYearMonotone(y1, y2);
    } else if y2 < y1 {
      DayFromYearMonotone(y2, y1);
    }
  }

  /**
   * `new Date(year, month + 1, 0).getDate()` is DaysInMonth: whatever valid
   * date the constructed day denotes, its date is DaysInMonth(year, month),
   * and it lies in the same month and in the year the constructor reads.
   */
  lemma DaysInMonthIsDateOfDayZero(year: int, month: int, read: CivilDate)
    requires 0 <= month < 12
    requires IsValidDate(read)
    requires MakeDay(read.year, read.month, read.day) == MakeDay(DateYear(year), month + 1, 0)
    ensures read == CivilDate(DateYear(year), month, DaysInMonth(year, month))
  {
    DayZeroIsLastDay(DateYear(year), month);
    DateOfDayNumberUnique(read, CivilDate(DateYear(year), month, DaysInMonth(year, month)));
  }

  /**
   * Month grids join up: the first of the next month falls DaysInMonth
   * weekdays after the first of this month.
   */
  lemma FirstWeekDayOfNextMonth(year: int, month: int)
    requires 0 <= month < 11
    ensures FirstWeekDay(year, month + 1) == (FirstWeekDay(year, month) + DaysInMonth(year, month)) % 7
  {
    var y := DateYear(year);
    NextMonthStart(y, month);
    WeekDayAdd(MakeDay(y, month, 1), MonthLength(y, month));
  }

  /**
   * December's grid joins January's of the next year, except where the
   * constructor's two-digit-year rule moves one of the two years (years
   * -1 and 99).
   */
  lemma FirstWeekDayOfNextYear(year: int)
    requires year != -1 && year != 99
    ensures FirstWeekDay(year + 1, 0) == (FirstWeekDay(year, 11) + DaysInMonth(year, 11)) % 7
  {
    var y := DateYear(year);
    assert DateYear(year + 1) == y + 1;
    assert MakeDay(y + 1, 0, 1) == MakeDay(y, 11, 1) + MonthLength(y, 11) by {
      NextMonthStart(y, 11);
      MakeDayInYear(y + 1, 0, 1);
    }
    WeekDayAdd(MakeDay(y, 11, 1), MonthLength(y, 11));
  }

  lemma WeekDayAdd(n: int, k: int)
    ensures WeekDay(n + k) == (WeekDay(n) + k) % 7
  {
  }

  /** The constructor's two-digit-year rule changes month lengths only for February of year 0. */
  lemma DateYearMonthLength(year: int, month: int)
    requires 0 <= month < 12
    ensures DaysInMonth(year, month) == MonthLength(year, month) <==> !(year == 0 && month == 1)
  {
    if 1 <= year <= 99 {
      assert (1900 + year) % 4 == year % 4;
    }
  }

  /** 1 January 2024 was a Monday. */
  lemma January2024IsMonday()
    ensures FirstWeekDay(2024, 0) == 1
  {
    DayFrom2024();
    MakeDayInYear(2024, 0, 1);
    assert MakeDay(2024, 0, 1) == 19723;
  }

  lemma DayFrom2024()
    ensures DayFromYear(2024) == 19723
  {
    assert (2024 - 1969) / 4 == 13;
    assert (2024 - 1901) / 100 == 1;
    assert (2024 - 1601) / 400 == 1;
  }

  /** February has 29 days in 2024 and 2000, and 28 in 1900. */
  lemma FebruaryAnchors()
    ensures DaysInMonth(2024, 1) == 29 && DaysInMonth(1900, 1) == 28 && DaysInMonth(2000, 1) == 29
  {
  }
}
