/**
 * The calendar helpers of the utilities file: the Gregorian leap-year rule,
 * the length of February, the table of month names and lengths, the
 * same-day predicates and the position of the current-time line. "Now" is
 * a parameter: where the application reads the clock, the caller passes
 * the time value it read.
 */
module CalendarUtils {
  import opened EcmaDate

  /** The Gregorian rule: every fourth year, except centuries, except every
      fourth century. (Only divisibility is tested, so JavaScript's
      truncating `%` and Dafny's Euclidean `%` agree here.) */
  predicate IsLeapYear(year: int)
  {
    (year % 4 == 0 && year % 100 != 0) || year % 400 == 0
  }

  /** The leap-year rule agrees with the date arithmetic's own year length. */
  lemma LeapYearAgreesWithYearLength(year: int)
    ensures IsLeapYear(year) <==> DaysInYear(year) == 366
    ensures !IsLeapYear(year) <==> DaysInYear(year) == 365
  {
  }

  /** The century exception and its own exception, and an ordinary year. */
  lemma LeapYearExamples()
    ensures !IsLeapYear(1900) && IsLeapYear(2000) && IsLeapYear(2024) && !IsLeapYear(2023)
    ensures GetDaysInFebruary(1900) == 28 && GetDaysInFebruary(2000) == 29
  {
  }

  /** 29 in a leap year, 28 otherwise. */
  function GetDaysInFebruary(year: int): (days: int)
    ensures days == 28 || days == 29
    ensures days == 29 <==> IsLeapYear(year)
  {
    if IsLeapYear(year) then 29 else 28
  }

  datatype Month = Month(id: int, name: string, days: int)

  const MonthNames: seq<string> := ["January", "February", "March", "April", "May", "June",
    "July", "August", "September", "October", "November", "December"]

  /** The month table. Its February entry is computed once, for the year
      current when the table is built; `currentYear` is that year. */
  function Months(currentYear: int): (months: seq<Month>)
    ensures |months| == 12
    ensures forall i :: 0 <= i < 12 ==> months[i].id == i + 1 && months[i].name == MonthNames[i]
    ensures forall i :: 0 <= i < 12 ==> 28 <= months[i].days <= 31
  {
    [
      Month(1, "January", 31),
      Month(2, "February", GetDaysInFebruary(currentYear)),
      Month(3, "March", 31),
      Month(4, "April", 30),
      Month(5, "May", 31),
      Month(6, "June", 30),
      Month(7, "July", 31),
      Month(8, "August", 31),
      Month(9, "September", 30),
      Month(10, "October", 31),
      Month(11, "November", 30),
      Month(12, "December", 31)
    ]
  }

  /** Every entry of the table is the Gregorian length of its month in the
      year the table was built for. */
  lemma MonthsAreGregorian(currentYear: int, i: int)
    requires 0 <= i < 12
    ensures Months(currentYear)[i].days == DaysInMonth(currentYear, i)
  {
    LeapYearAgreesWithYearLength(currentYear);
  }

  /** Only February depends on the year the table was built in. */
  lemma OnlyFebruaryVaries(y1: int, y2: int, i: int)
    requires 0 <= i < 12 && i != 1
    ensures Months(y1)[i] == Months(y2)[i]
  {
  }

  /** The table is wrong for February in any year of a different leap kind
      from the one it was built in. */
  lemma FebruaryFixedAtBuild(currentYear: int, viewedYear: int)
    requires IsLeapYear(currentYear) != IsLeapYear(viewedYear)
    ensures Months(currentYear)[1].days != DaysInMonth(viewedYear, 1)
  {
    LeapYearAgreesWithYearLength(currentYear);
    LeapYearAgreesWithYearLength(viewedYear);
  }

  /** Same date of the month, same month, same year. */
  predicate IsSelected(date: int, selectedDate: int)
  {
    DateFromTime(date) == DateFromTime(selectedDate)
    && MonthFromTime(date) == MonthFromTime(selectedDate)
    && YearFromTime(date) == YearFromTime(selectedDate)
  }

  /** The same three comparisons against the injected current time. */
  predicate IsToday(date: int, now: int)
  {
    DateFromTime(date) == DateFromTime(now)
    && MonthFromTime(date) == MonthFromTime(now)
    && YearFromTime(date) == YearFromTime(now)
  }

  /** Two instants are "selected" together exactly when they fall on the
      same day, whatever their times of day. */
  lemma IsSelectedSameDay(date: int, selectedDate: int)
    ensures IsSelected(date, selectedDate) <==> Day(date) == Day(selectedDate)
  {
    var a := CivilFromDay(Day(date));
    var b := CivilFromDay(Day(selectedDate));
    if IsSelected(date, selectedDate) {
      assert a == b;
    }
  }

  /** IsSelected is reflexive and symmetric, and ignores the time of day. */
  lemma IsSelectedEquivalence(a: int, b: int, hour: int)
    ensures IsSelected(a, a)
    ensures IsSelected(a, b) <==> IsSelected(b, a)
    ensures 0 <= hour < 24 ==> IsSelected(SetHours(a, hour), a)
  {
    IsSelectedSameDay(a, b);
    IsSelectedSameDay(b, a);
    SetHoursFields(a, hour);
    IsSelectedSameDay(SetHours(a, hour), a);
  }

  /** With the clock injected, "today" is "selected against now". */
  lemma IsTodayIsSelected(date: int, now: int)
    ensures IsToday(date, now) <==> IsSelected(date, now)
    ensures IsToday(date, now) <==> Day(date) == Day(now)
  {
    IsSelectedSameDay(date, now);
  }

  /** The `top` of the current-time line, in percent of the day column:
      minutes since midnight out of 1440. The view passes a date, which
      the computation never reads, so it is not a parameter here. */
  function TimeIndicatorTop(now: int): (percentage: real)
    ensures 0.0 <= percentage < 100.0
    ensures percentage * 1440.0 == (HourFromTime(now) * 60 + MinFromTime(now)) as real * 100.0
  {
    ((HourFromTime(now) * 60 + MinFromTime(now)) as real / 1440.0) * 100.0
  }
}
