/**
 * The JavaScript `Date` arithmetic every calendar view leans on, after the
 * time-value operations of section 21.4.1 of ECMA-262 (Day, TimeWithinDay,
 * DayFromYear, DaysInYear, MonthFromTime, DateFromTime, WeekDay, MakeTime,
 * MakeDay, MakeDate) and the setters of section 21.4.4.
 *
 * A time value is an integer number of milliseconds. Local time is taken to
 * be the time value itself (no time zone offset, no daylight saving).
 */
module EcmaDate {

  const MsPerSecond: int := 1000
  const MsPerMinute: int := 60000
  const MsPerHour: int := 3600000
  const MsPerDay: int := 86400000

  /** The [[DateValue]] slot of a Date object: a time value or NaN. */
  datatype DateValue = Time(tv: int) | NaN

  /** A calendar date: a year, a month 0..11 and a day of the month 1..31. */
  datatype Civil = Civil(year: int, month: int, day: int)

  // ---------------------------------------------------------------------
  // Years

  /** DaysInYear, stated case by case as section 21.4.1.3 does. */
  function DaysInYear(y: int): (n: int)
    ensures n == 365 || n == 366
  {
    if y % 4 != 0 then 365
    else if y % 100 != 0 then 366
    else if y % 400 != 0 then 365
    else 366
  }

  /** Number of the first day of year y, counted from 1 January 1970:
      each year starts DaysInYear after the one before. */
  function DayFromYear(y: int): int
    decreases if y < 1970 then 1970 - y else y - 1970
  {
    if y == 1970 then 0
    else if y > 1970 then DayFromYear(y - 1) + DaysInYear(y - 1)
    else DayFromYear(y + 1) - DaysInYear(y)
  }

  /** Consecutive years are DaysInYear apart. */
  lemma DayFromYearNext(y: int)
    ensures DayFromYear(y + 1) == DayFromYear(y) + DaysInYear(y)
  {
  }

  /** The closed formula section 21.4.1.3 gives for DayFromYear. */
  function DayFromYearFormula(y: int): int
  {
    365 * (y - 1970) + (y - 1969) / 4 - (y - 1901) / 100 + (y - 1601) / 400
  }

  lemma LeapStep4(y: int)
    ensures (y - 1968) / 4 - (y - 1969) / 4 == (if y % 4 == 0 then 1 else 0)
  {
    assert (y - 1968) % 4 == y % 4;
  }

  lemma LeapStep100(y: int)
    ensures (y - 1900) / 100 - (y - 1901) / 100 == (if y % 100 == 0 then 1 else 0)
  {
    assert (y - 1900) % 100 == y % 100;
  }

  lemma LeapStep400(y: int)
    ensures (y - 1600) / 400 - (y - 1601) / 400 == (if y % 400 == 0 then 1 else 0)
  {
    assert (y - 1600) % 400 == y % 400;
  }

  /** A multiple of 100 is a multiple of 4, and a multiple of 400 one of 100. */
  lemma CenturyDivisibility(y: int)
    ensures y % 100 == 0 ==> y % 4 == 0
    ensures y % 400 == 0 ==> y % 100 == 0
  {
    if y % 100 == 0 {
      DivModUnique(y, 4, 25 * (y / 100), 0);
    }
    if y % 400 == 0 {
      DivModUnique(y, 100, 4 * (y / 400), 0);
    }
  }

  /** The year length as one leap day per fourth year, less one per
      century, plus one per fourth century. */
  lemma DaysInYearCount(y: int)
    ensures DaysInYear(y) == 365 + (if y % 4 == 0 then 1 else 0)
      - (if y % 100 == 0 then 1 else 0) + (if y % 400 == 0 then 1 else 0)
  {
    CenturyDivisibility(y);
  }

  /** The closed formula also steps by DaysInYear. */
  lemma FormulaNext(y: int)
    ensures DayFromYearFormula(y + 1) == DayFromYearFormula(y) + DaysInYear(y)
  {
    assert DayFromYearFormula(y + 1) - DayFromYearFormula(y)
      == 365 + ((y - 1968) / 4 - (y - 1969) / 4) - ((y - 1900) / 100 - (y - 1901) / 100)
         + ((y - 1600) / 400 - (y - 1601) / 400);
    LeapStep4(y);
    LeapStep100(y);
    LeapStep400(y);
    DaysInYearCount(y);
  }

  /** The year-by-year count and the closed formula agree on every year. */
  lemma {:induction false} DayFromYearClosedForm(y: int)
    ensures DayFromYear(y) == DayFromYearFormula(y)
    decreases if y < 1970 then 1970 - y else y - 1970
  {
    if y > 1970 {
      DayFromYearClosedForm(y - 1);
      FormulaNext(y - 1);
    } else if y < 1970 {
      DayFromYearClosedForm(y + 1);
      FormulaNext(y);
    }
  }

  lemma {:induction false} DayFromYearMonotone(a: int, b: int)
    requires a < b
    ensures DayFromYear(a + 1) <= DayFromYear(b)
    decreases b - a
  {
    if a + 1 < b {
      DayFromYearMonotone(a + 1, b);
      DayFromYearNext(a + 1);
    }
  }

  /** The year holding day n, searching upwards from year y. */
  function YearUp(n: int, y: int): (r: int)
    requires DayFromYear(y) <= n
    ensures DayFromYear(r) <= n < DayFromYear(r + 1)
    decreases n - DayFromYear(y)
  {
    DayFromYearNext(y);
    if n < DayFromYear(y + 1) then y else YearUp(n, y + 1)
  }

  /** The year holding day n, searching downwards from year y. */
  function YearDown(n: int, y: int): (r: int)
    requires n < DayFromYear(y + 1)
    ensures DayFromYear(r) <= n < DayFromYear(r + 1)
    decreases DayFromYear(y + 1) - n
  {
    DayFromYearNext(y);
    if DayFromYear(y) <= n then y else YearDown(n, y - 1)
  }

  /** YearFromTime, on day numbers: the unique year whose days include n. */
  function YearFromDay(n: int): (y: int)
    ensures DayFromYear(y) <= n < DayFromYear(y + 1)
  {
    if 0 <= n then YearUp(n, 1970) else YearDown(n, 1969)
  }

  lemma YearUnique(n: int, y: int, z: int)
    requires DayFromYear(y) <= n < DayFromYear(y + 1)
    requires DayFromYear(z) <= n < DayFromYear(z + 1)
    ensures y == z
  {
    if y < z {
      DayFromYearMonotone(y, z);
    } else if z < y {
      DayFromYearMonotone(z, y);
    }
  }

  // ---------------------------------------------------------------------
  // Months

  /** Month lengths and days before each month in a common year. */
  const CommonMonthLengths: seq<int> := [31, 28, 31, 30, 31, 30, 31, 31, 30, 31, 30, 31]
  const CommonDaysBefore: seq<int> := [0, 31, 59, 90, 120, 151, 181, 212, 243, 273, 304, 334, 365]

  /** 1 in a leap year, 0 otherwise. */
  function LeapDay(y: int): (n: int)
    ensures n == DaysInYear(y) - 365
  {
    if DaysInYear(y) == 366 then 1 else 0
  }

  /** Length of month m (0..11) of year y, as DateFromTime counts it. */
  function DaysInMonth(y: int, m: int): (n: int)
    requires 0 <= m < 12
    ensures 28 <= n <= 31
  {
    CommonMonthLengths[m] + (if m == 1 then LeapDay(y) else 0)
  }

  /** Days of year y that come before month m (0..12). */
  function DaysBeforeMonth(y: int, m: int): (n: int)
    requires 0 <= m <= 12
    ensures m == 0 ==> n == 0
    ensures m == 12 ==> n == DaysInYear(y)
  {
    CommonDaysBefore[m] + (if m >= 2 then LeapDay(y) else 0)
  }

  /** Month m takes up exactly its own length. */
  lemma DaysBeforeMonthNext(y: int, m: int)
    requires 0 <= m < 12
    ensures DaysBeforeMonth(y, m + 1) == DaysBeforeMonth(y, m) + DaysInMonth(y, m)
  {
  }

  lemma {:induction false} DaysBeforeMonthMonotone(y: int, a: int, b: int)
    requires 0 <= a < b <= 12
    ensures DaysBeforeMonth(y, a + 1) <= DaysBeforeMonth(y, b)
    decreases b - a
  {
    if a + 1 < b {
      DaysBeforeMonthMonotone(y, a + 1, b);
      DaysBeforeMonthNext(y, a + 1);
    }
  }

  /** The month holding day d of year y, searching upwards from month m. */
  function MonthFrom(y: int, d: int, m: int): (r: int)
    requires 0 <= m < 12 && DaysBeforeMonth(y, m) <= d < DaysInYear(y)
    ensures m <= r < 12
    ensures DaysBeforeMonth(y, r) <= d < DaysBeforeMonth(y, r + 1)
    decreases 12 - m
  {
    if m == 11 then
      assert DaysBeforeMonth(y, 12) == DaysInYear(y);
      m
    else if d < DaysBeforeMonth(y, m + 1) then m
    else MonthFrom(y, d, m + 1)
  }

  /** MonthFromTime, on the day within the year. */
  function MonthFromDayInYear(y: int, d: int): (m: int)
    requires 0 <= d < DaysInYear(y)
    ensures 0 <= m < 12
    ensures DaysBeforeMonth(y, m) <= d < DaysBeforeMonth(y, m + 1)
  {
    MonthFrom(y, d, 0)
  }

  lemma MonthUnique(y: int, d: int, m: int, k: int)
    requires 0 <= m < 12 && 0 <= k < 12
    requires DaysBeforeMonth(y, m) <= d < DaysBeforeMonth(y, m + 1)
    requires DaysBeforeMonth(y, k) <= d < DaysBeforeMonth(y, k + 1)
    ensures m == k
  {
    if m < k {
      DaysBeforeMonthMonotone(y, m, k);
    } else if k < m {
      DaysBeforeMonthMonotone(y, k, m);
    }
  }

  // ---------------------------------------------------------------------
  // Days and calendar dates

  predicate ValidCivil(c: Civil)
  {
    0 <= c.month < 12 && 1 <= c.day <= DaysInMonth(c.year, c.month)
  }

  /** MakeDay: the day number of date `date` of month `month` of `year`.
      The month is normalised first (month -1 is December of the year
      before, month 12 January of the year after), and the date is an
      offset from the first of that month, so date 0 is the last day of
      the month before. */
  function MakeDay(year: int, month: int, date: int): int
    decreases if 0 <= month < 12 then 0 else 1
  {
    if 0 <= month < 12 then DayFromYear(year) + DaysBeforeMonth(year, month) + date - 1
    else MakeDay(year + month / 12, month % 12, date)
  }

  /** Within a year, MakeDay counts the days before the month. */
  lemma MakeDayInYear(year: int, month: int, date: int)
    requires 0 <= month < 12
    ensures MakeDay(year, month, date) == DayFromYear(year) + DaysBeforeMonth(year, month) + date - 1
  {
  }

  /** MakeDay first normalises the month into a year and a month 0..11. */
  lemma MakeDayNormal(year: int, month: int, date: int)
    ensures 0 <= month % 12 < 12
    ensures MakeDay(year, month, date) == MakeDay(year + month / 12, month % 12, date)
  {
    if 0 <= month < 12 {
      DivModUnique(month, 12, 0, month);
    }
  }

  /** The date argument is a plain offset in days. */
  lemma MakeDayShift(year: int, month: int, date: int, k: int)
    ensures MakeDay(year, month, date + k) == MakeDay(year, month, date) + k
  {
    MakeDayNormal(year, month, date + k);
    MakeDayNormal(year, month, date);
    MakeDayInYear(year + month / 12, month % 12, date + k);
    MakeDayInYear(year + month / 12, month % 12, date);
  }

  /** The calendar date of day number n (YearFromTime, MonthFromTime and
      DateFromTime together). */
  function CivilFromDay(n: int): (c: Civil)
    ensures ValidCivil(c)
    ensures MakeDay(c.year, c.month, c.day) == n
  {
    var y := YearFromDay(n);
    DayFromYearNext(y);
    var m := MonthFromDayInYear(y, n - DayFromYear(y));
    var d := n - DayFromYear(y) - DaysBeforeMonth(y, m) + 1;
    DaysBeforeMonthNext(y, m);
    MakeDayInYear(y, m, d);
    Civil(y, m, d)
  }

  /** A valid date lies within its own year, and within its own month. */
  lemma ValidCivilBounds(c: Civil)
    requires ValidCivil(c)
    ensures DayFromYear(c.year) <= MakeDay(c.year, c.month, c.day) < DayFromYear(c.year + 1)
    ensures DaysBeforeMonth(c.year, c.month) <= MakeDay(c.year, c.month, c.day) - DayFromYear(c.year)
    ensures MakeDay(c.year, c.month, c.day) - DayFromYear(c.year) < DaysBeforeMonth(c.year, c.month + 1)
  {
    MakeDayInYear(c.year, c.month, c.day);
    DaysBeforeMonthNext(c.year, c.month);
    if c.month + 1 < 12 {
      DaysBeforeMonthMonotone(c.year, c.month, 12);
    }
    DayFromYearNext(c.year);
  }

  /** No two valid calendar dates share a day number. */
  lemma MakeDayInjective(a: Civil, b: Civil)
    requires ValidCivil(a) && ValidCivil(b)
    requires MakeDay(a.year, a.month, a.day) == MakeDay(b.year, b.month, b.day)
    ensures a == b
  {
    var n := MakeDay(a.year, a.month, a.day);
    ValidCivilBounds(a);
    ValidCivilBounds(b);
    YearUnique(n, a.year, b.year);
    MonthUnique(a.year, n - DayFromYear(a.year), a.month, b.month);
  }

  /** Every valid calendar date is the date of exactly the day MakeDay
      assigns it: CivilFromDay and MakeDay are inverse bijections between
      valid calendar dates and the integers. */
  lemma CivilFromMakeDay(c: Civil)
    requires ValidCivil(c)
    ensures CivilFromDay(MakeDay(c.year, c.month, c.day)) == c
  {
    MakeDayInjective(CivilFromDay(MakeDay(c.year, c.month, c.day)), c);
  }

  /** Day n and day k have the same calendar date exactly when n == k. */
  lemma CivilFromDayInjective(n: int, k: int)
    ensures CivilFromDay(n) == CivilFromDay(k) <==> n == k
  {
  }

  /** WeekDay: 0 is Sunday; day 0 (1 January 1970) was a Thursday. */
  function WeekDay(n: int): (w: int)
    ensures 0 <= w < 7
  {
    (n + 4) % 7
  }

  /** Counting i days from the Sunday on or before day n lands on weekday i. */
  lemma WeekDayFromSunday(n: int, i: int)
    requires 0 <= i < 7
    ensures WeekDay(n - WeekDay(n)) == 0
    ensures WeekDay(n - WeekDay(n) + i) == i
  {
    var q := (n + 4) / 7;
    assert n + 4 == 7 * q + WeekDay(n);
    assert n - WeekDay(n) + i + 4 == 7 * q + i;
  }

  /** Day k after a Sunday falls on weekday k mod 7. */
  lemma WeekDayAfterSunday(n: int, k: int)
    requires WeekDay(n) == 0 && 0 <= k
    ensures WeekDay(n + k) == k % 7
  {
    var q := (n + 4) / 7;
    assert n + 4 == q * 7;
    DivModUnique(n + k + 4, 7, q + k / 7, k % 7);
  }

  /** Moving on one day moves the weekday on by one, modulo 7. */
  lemma WeekDayNext(n: int)
    ensures WeekDay(n + 1) == (WeekDay(n) + 1) % 7
  {
  }

  /** The first of the next month is one month length after the first of
      this one, December to January included. */
  lemma MonthStartNext(year: int, month: int)
    ensures MakeDay(year, month + 1, 1) == MakeDay(year, month, 1) + DaysInMonth(year + month / 12, month % 12)
  {
    var ym := year + month / 12;
    var mn := month % 12;
    MakeDayNormal(year, month, 1);
    MakeDayNormal(year, month + 1, 1);
    DaysBeforeMonthNext(ym, mn);
    if mn < 11 {
      DivModUnique(month + 1, 12, month / 12, mn + 1);
      assert MakeDay(year, month + 1, 1) == MakeDay(ym, mn + 1, 1);
    } else {
      DivModUnique(month + 1, 12, month / 12 + 1, 0);
      assert MakeDay(year, month + 1, 1) == MakeDay(ym + 1, 0, 1);
      DayFromYearNext(ym);
    }
  }

  /** k days after a valid date, while still inside its month, is the same
      month with the date advanced by k. */
  lemma CivilShiftWithin(c: Civil, k: int, e: Civil)
    requires ValidCivil(c) && 1 <= c.day + k <= DaysInMonth(c.year, c.month)
    requires ValidCivil(e) && MakeDay(e.year, e.month, e.day) == MakeDay(c.year, c.month, c.day) + k
    ensures e == Civil(c.year, c.month, c.day + k)
  {
    MakeDayShift(c.year, c.month, c.day, k);
    MakeDayInjective(e, Civil(c.year, c.month, c.day + k));
  }

  /** k days after a valid date, up to 28 days past the end of its month,
      is in the next month (January of the next year after December), on
      the date that many days past the month's end. */
  lemma CivilShiftOver(c: Civil, k: int, ny: int, nm: int, e: Civil)
    requires ValidCivil(c)
    requires DaysInMonth(c.year, c.month) < c.day + k <= DaysInMonth(c.year, c.month) + 28
    requires ny == c.year + (c.month + 1) / 12 && nm == (c.month + 1) % 12
    requires ValidCivil(e) && MakeDay(e.year, e.month, e.day) == MakeDay(c.year, c.month, c.day) + k
    ensures e == Civil(ny, nm, c.day + k - DaysInMonth(c.year, c.month))
  {
    var d := c.day + k - DaysInMonth(c.year, c.month);
    MakeDayPastMonthEnd(c.year, c.month, c.day, k, ny, nm);
    assert ValidCivil(Civil(ny, nm, d));
    MakeDayInjective(e, Civil(ny, nm, d));
  }

  lemma MakeDayPastMonthEnd(y: int, m: int, day: int, k: int, ny: int, nm: int)
    requires 0 <= m < 12
    requires ny == y + (m + 1) / 12 && nm == (m + 1) % 12
    ensures 0 <= nm < 12
    ensures MakeDay(y, m, day) + k == MakeDay(ny, nm, day + k - DaysInMonth(y, m))
  {
    var dim := DaysInMonth(y, m);
    var d := day + k - dim;
    var n := MakeDay(y, m, day) + k;
    assert n == MakeDay(y, m, 1) + day + k - 1 by {
      MakeDayShift(y, m, day, k);
      MakeDayShift(y, m, 1, day + k - 1);
    }
    assert MakeDay(y, m + 1, 1) == MakeDay(y, m, 1) + dim by {
      DivModUnique(m, 12, 0, m);
      MonthStartNext(y, m);
    }
    assert n == MakeDay(y, m + 1, d) by {
      MakeDayShift(y, m + 1, 1, d - 1);
    }
    MakeDayNormal(y, m + 1, d);
  }

  /** The month before `month`, normalised, from the normalised `month`. */
  lemma PreviousMonthNormal(month: int)
    ensures month % 12 == 0 ==> (month - 1) / 12 == month / 12 - 1 && (month - 1) % 12 == 11
    ensures month % 12 != 0 ==> (month - 1) / 12 == month / 12 && (month - 1) % 12 == month % 12 - 1
  {
    if month % 12 == 0 {
      DivModUnique(month - 1, 12, month / 12 - 1, 11);
    } else {
      DivModUnique(month - 1, 12, month / 12, month % 12 - 1);
    }
  }

  /** Within a year, date 0 of month m is the last day of month m - 1, or of
      December of the year before when m is January. */
  lemma DateZeroInYear(y: int, m: int)
    requires 0 <= m < 12
    ensures m == 0 ==> MakeDay(y, m, 0) == MakeDay(y - 1, 11, DaysInMonth(y - 1, 11))
    ensures m != 0 ==> MakeDay(y, m, 0) == MakeDay(y, m - 1, DaysInMonth(y, m - 1))
  {
    if m == 0 {
      DaysBeforeMonthNext(y - 1, 11);
      DayFromYearNext(y - 1);
    } else {
      DaysBeforeMonthNext(y, m - 1);
    }
  }

  /** Date 0 of a month falls on the last day of the month before. */
  lemma DateZeroDay(year: int, month: int, py: int, pm: int)
    requires py == year + (month - 1) / 12 && pm == (month - 1) % 12
    ensures 0 <= pm < 12
    ensures MakeDay(year, month, 0) == MakeDay(py, pm, DaysInMonth(py, pm))
  {
    MakeDayNormal(year, month, 0);
    PreviousMonthNormal(month);
    DateZeroInYear(year + month / 12, month % 12);
  }

  /** Date 0 of a month is the last day of the month before. */
  lemma DateZeroIsLastOfPrevious(year: int, month: int, py: int, pm: int)
    requires py == year + (month - 1) / 12 && pm == (month - 1) % 12
    ensures 0 <= pm < 12
    ensures CivilFromDay(MakeDay(year, month, 0)) == Civil(py, pm, DaysInMonth(py, pm))
  {
    DateZeroDay(year, month, py, pm);
    CivilFromMakeDay(Civil(py, pm, DaysInMonth(py, pm)));
  }

  // ---------------------------------------------------------------------
  // Time values

  function Day(t: int): int { t / MsPerDay }

  function TimeWithinDay(t: int): (r: int)
    ensures 0 <= r < MsPerDay
  {
    t % MsPerDay
  }

  function HourFromTime(t: int): (h: int)
    ensures 0 <= h < 24
  {
    TimeWithinDay(t) / MsPerHour
  }

  function MinFromTime(t: int): (m: int)
    ensures 0 <= m < 60
  {
    (TimeWithinDay(t) / MsPerMinute) % 60
  }

  function SecFromTime(t: int): (s: int)
    ensures 0 <= s < 60
  {
    (TimeWithinDay(t) / MsPerSecond) % 60
  }

  function MsFromTime(t: int): (ms: int)
    ensures 0 <= ms < 1000
  {
    TimeWithinDay(t) % MsPerSecond
  }

  function MakeTime(hour: int, min: int, sec: int, ms: int): int
  {
    hour * MsPerHour + min * MsPerMinute + sec * MsPerSecond + ms
  }

  function MakeDate(day: int, time: int): int
  {
    day * MsPerDay + time
  }

  /** Midnight of day n lies on day n, at time 0. */
  lemma MidnightOf(n: int)
    ensures Day(MakeDate(n, 0)) == n && TimeWithinDay(MakeDate(n, 0)) == 0
  {
  }

  /** A time within the day stays on the day it is added to. */
  lemma MakeDateInDay(day: int, time: int)
    requires 0 <= time < MsPerDay
    ensures Day(MakeDate(day, time)) == day && TimeWithinDay(MakeDate(day, time)) == time
  {
    MakeDateParts(day, time);
  }

  /** A time value is its day and its time within the day. */
  lemma DayTimeSplit(t: int)
    ensures t == MakeDate(Day(t), TimeWithinDay(t))
  {
  }

  /** MakeDate normalises: a time beyond one day carries into the day. */
  lemma MakeDateParts(day: int, time: int)
    ensures Day(MakeDate(day, time)) == day + time / MsPerDay
    ensures TimeWithinDay(MakeDate(day, time)) == time % MsPerDay
  {
  }

  /** Quotient and remainder are unique: the arithmetic step behind every
      field of a time value. */
  lemma DivModUnique(a: int, b: int, q: int, r: int)
    requires 0 < b && 0 <= r < b && a == q * b + r
    ensures a / b == q && a % b == r
  {
    var q' := a / b;
    if q' < q {
      MulStep(q', q, b);
      assert false;
    } else if q < q' {
      MulStep(q, q', b);
      assert false;
    }
  }

  lemma MulStep(x: int, y: int, b: int)
    requires x < y && 0 < b
    ensures x * b + b <= y * b
  {
    assert y * b - x * b - b == (y - x - 1) * b;
  }

  /** The four fields of a time within the day rebuild it. */
  lemma TimeFieldsSplit(t: int)
    ensures TimeWithinDay(t) == MakeTime(HourFromTime(t), MinFromTime(t), SecFromTime(t), MsFromTime(t))
  {
    var x := TimeWithinDay(t);
    var secs := x / MsPerSecond;
    var mins := secs / 60;
    var hours := mins / 60;
    assert x == secs * 1000 + x % 1000;
    assert secs == mins * 60 + secs % 60;
    assert mins == hours * 60 + mins % 60;
    assert x == mins * MsPerMinute + (secs % 60 * 1000 + x % 1000);
    DivModUnique(x, MsPerMinute, mins, secs % 60 * 1000 + x % 1000);
    assert x == hours * MsPerHour + (mins % 60 * MsPerMinute + secs % 60 * 1000 + x % 1000);
    DivModUnique(x, MsPerHour, hours, mins % 60 * MsPerMinute + secs % 60 * 1000 + x % 1000);
  }

  /** Fields in range are read back exactly from the time value they build. */
  lemma TimeFieldsOfMakeTime(day: int, h: int, m: int, s: int, ms: int)
    requires 0 <= h < 24 && 0 <= m < 60 && 0 <= s < 60 && 0 <= ms < 1000
    ensures Day(MakeDate(day, MakeTime(h, m, s, ms))) == day
    ensures HourFromTime(MakeDate(day, MakeTime(h, m, s, ms))) == h
    ensures MinFromTime(MakeDate(day, MakeTime(h, m, s, ms))) == m
    ensures SecFromTime(MakeDate(day, MakeTime(h, m, s, ms))) == s
    ensures MsFromTime(MakeDate(day, MakeTime(h, m, s, ms))) == ms
  {
    var x := MakeTime(h, m, s, ms);
    var t := MakeDate(day, x);
    assert 0 <= x < MsPerDay;
    DivModUnique(t, MsPerDay, day, x);
    DivModUnique(x, MsPerHour, h, m * MsPerMinute + s * 1000 + ms);
    DivModUnique(x, MsPerMinute, h * 60 + m, s * 1000 + ms);
    DivModUnique(h * 60 + m, 60, h, m);
    DivModUnique(x, MsPerSecond, h * 3600 + m * 60 + s, ms);
    DivModUnique(h * 3600 + m * 60 + s, 60, h * 60 + m, s);
  }

  function YearFromTime(t: int): int { CivilFromDay(Day(t)).year }

  function MonthFromTime(t: int): (m: int)
    ensures 0 <= m < 12
  {
    CivilFromDay(Day(t)).month
  }

  function DateFromTime(t: int): (d: int)
    ensures 1 <= d <= 31
  {
    CivilFromDay(Day(t)).day
  }

  function WeekDayOf(t: int): (w: int)
    ensures 0 <= w < 7
  {
    WeekDay(Day(t))
  }

  // ---------------------------------------------------------------------
  // Date constructor and setters (sections 21.4.2.1 and 21.4.4)

  /** The year `new Date(year, month, date)` builds: a year from 0 to 99
      is read as 1900 + year (section 21.4.2.1). */
  function ConstructorYear(year: int): (y: int)
    ensures 0 <= year <= 99 ==> y == 1900 + year
    ensures !(0 <= year <= 99) ==> y == year
  {
    if 0 <= year <= 99 then 1900 + year else year
  }

  /** Midnight of day `date` of month `month` of the full year `year` (what
      `new Date(year, month, date)` builds when no two-digit year is read). */
  function DateOf(year: int, month: int, date: int): int
  {
    MakeDate(MakeDay(year, month, date), 0)
  }

  /** `new Date(year, month, date)`: midnight of MakeDay's day, after the
      two-digit year rule. */
  function NewDate(year: int, month: int, date: int): int
  {
    DateOf(ConstructorYear(year), month, date)
  }

  /** A date in range is read back exactly from the midnight it builds. */
  lemma DateOfFields(year: int, month: int, date: int)
    requires ValidCivil(Civil(year, month, date))
    ensures Day(DateOf(year, month, date)) == MakeDay(year, month, date)
    ensures TimeWithinDay(DateOf(year, month, date)) == 0
    ensures YearFromTime(DateOf(year, month, date)) == year
    ensures MonthFromTime(DateOf(year, month, date)) == month
    ensures DateFromTime(DateOf(year, month, date)) == date
  {
    MidnightOf(MakeDay(year, month, date));
    CivilFromMakeDay(Civil(year, month, date));
  }

  /** `d.setDate(date)`: same year, month and time of day, date replaced. */
  function SetDate(t: int, date: int): int
  {
    MakeDate(MakeDay(YearFromTime(t), MonthFromTime(t), date), TimeWithinDay(t))
  }

  /** `d.setMonth(month)`: same year, date and time of day, month replaced. */
  function SetMonth(t: int, month: int): int
  {
    MakeDate(MakeDay(YearFromTime(t), month, DateFromTime(t)), TimeWithinDay(t))
  }

  /** `d.setHours(hour)`: same day, minutes, seconds and milliseconds. */
  function SetHours(t: int, hour: int): int
  {
    MakeDate(Day(t), MakeTime(hour, MinFromTime(t), SecFromTime(t), MsFromTime(t)))
  }

  /** `d.setHours(hour, min, sec, ms)`. */
  function SetHoursAll(t: int, hour: int, min: int, sec: int, ms: int): int
  {
    MakeDate(Day(t), MakeTime(hour, min, sec, ms))
  }

  /** `d.setMinutes(min)`: same day, hours, seconds and milliseconds. */
  function SetMinutes(t: int, min: int): int
  {
    MakeDate(Day(t), MakeTime(HourFromTime(t), min, SecFromTime(t), MsFromTime(t)))
  }

  /** Setting the date of the month moves the day number by the difference
      of dates and keeps the time of day. */
  lemma SetDateShift(t: int, date: int)
    ensures Day(SetDate(t, date)) == Day(t) + date - DateFromTime(t)
    ensures TimeWithinDay(SetDate(t, date)) == TimeWithinDay(t)
  {
    var c := CivilFromDay(Day(t));
    assert MakeDay(c.year, c.month, date) == Day(t) + date - c.day;
    MakeDateParts(MakeDay(c.year, c.month, date), TimeWithinDay(t));
  }

  /** Setting the hour keeps minutes, seconds and milliseconds, and moves
      the day by the whole days in the hour. */
  lemma SetHoursFields(t: int, hour: int)
    ensures Day(SetHours(t, hour)) == Day(t) + hour / 24
    ensures HourFromTime(SetHours(t, hour)) == hour % 24
    ensures MinFromTime(SetHours(t, hour)) == MinFromTime(t)
    ensures SecFromTime(SetHours(t, hour)) == SecFromTime(t)
    ensures MsFromTime(SetHours(t, hour)) == MsFromTime(t)
  {
    var day := Day(t) + hour / 24;
    var ti := MakeTime(hour % 24, MinFromTime(t), SecFromTime(t), MsFromTime(t));
    assert SetHours(t, hour) == MakeDate(day, ti);
    TimeFieldsOfMakeTime(day, hour % 24, MinFromTime(t), SecFromTime(t), MsFromTime(t));
  }
}
