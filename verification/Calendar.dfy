/**
 UTC calendar arithmetic on time values in milliseconds, as the Date functions
 of section 21.4.1 of ECMA-262 define it.
 */
module Calendar {

  /** Day 0 is the first of January 1970. */
  function Day(t: int): int {
    t / 86_400_000
  }

  function TimeWithinDay(t: int): (r: int)
    ensures 0 <= r < 86_400_000 && t == Day(t) * 86_400_000 + r
  {
    t % 86_400_000
  }

  function MakeDate(day: int, time: int): int {
    day * 86_400_000 + time
  }

  /** Sunday is 0. */
  function WeekDay(t: int): int {
    (Day(t) + 4) % 7
  }

  predicate IsLeap(y: int) {
    y % 4 == 0 && (y % 100 != 0 || y % 400 == 0)
  }

  function DaysInYear(y: int): int {
    if IsLeap(y) then 366 else 365
  }

  function DayFromYear(y: int): int {
    365 * (y - 1970) + (y - 1969) / 4 - (y - 1901) / 100 + (y - 1601) / 400
  }

  /** The day number of a year is the running sum of the lengths of the years before it. */
  lemma NextYear(y: int)
    ensures DayFromYear(y + 1) == DayFromYear(y) + DaysInYear(y)
  {
    FourYears(y);
    Centuries(y);
    FourCenturies(y);
    LeapRuleNests(y);
  }

  lemma FourYears(y: int)
    ensures (y + 1 - 1969) / 4 == (y - 1969) / 4 + if y % 4 == 0 then 1 else 0
  {
  }

  lemma Centuries(y: int)
    ensures (y + 1 - 1901) / 100 == (y - 1901) / 100 + if y % 100 == 0 then 1 else 0
  {
  }

  lemma FourCenturies(y: int)
    ensures (y + 1 - 1601) / 400 == (y - 1601) / 400 + if y % 400 == 0 then 1 else 0
  {
  }

  lemma LeapRuleNests(y: int)
    ensures (y % 400 == 0 ==> y % 100 == 0) && (y % 100 == 0 ==> y % 4 == 0)
  {
    var a, b := y / 400, y / 100;
    assert y == 400 * a + y % 400 && y == 100 * b + y % 100;
  }

  lemma YearsGrow(a: int, b: int)
    requires a < b
    ensures DayFromYear(a) + 365 <= DayFromYear(b)
    decreases b - a
  {
    NextYear(b - 1);
    if a < b - 1 {
      YearsGrow(a, b - 1);
    }
  }

  /** The largest year that has begun by the given day, found by stepping up from an early year. */
  function YearFromDay(d: int): (y: int)
    ensures DayFromYear(y) <= d < DayFromYear(y + 1)
  {
    var early := if d >= 0 then 1970 + d / 366 else 1970 + d / 365;
    EarlyYear(d);
    StepToYear(d, early)
  }

  lemma EarlyYear(d: int)
    ensures DayFromYear(if d >= 0 then 1970 + d / 366 else 1970 + d / 365) <= d
  {
  }

  function StepToYear(d: int, y: int): (r: int)
    requires DayFromYear(y) <= d
    ensures DayFromYear(r) <= d < DayFromYear(r + 1)
    decreases d - DayFromYear(y)
  {
    NextYear(y);
    if d < DayFromYear(y + 1) then y else StepToYear(d, y + 1)
  }

  lemma YearIsUnique(d: int, y: int)
    requires DayFromYear(y) <= d < DayFromYear(y + 1)
    ensures YearFromDay(d) == y
  {
    hide YearFromDay, DayFromYear;
    var r := YearFromDay(d);
    if r < y {
      if r + 1 < y {
        YearsGrow(r + 1, y);
      }
      assert false;
    } else if y < r {
      if y + 1 < r {
        YearsGrow(y + 1, r);
      }
      assert false;
    }
  }

  /** Days of a year before its month m; month 12 is the next year's January. */
  function DaysBeforeMonth(leap: bool, m: int): int
    requires 0 <= m <= 12
  {
    var l := if leap then 1 else 0;
    if m == 0 then 0
    else if m == 1 then 31
    else if m == 2 then 59 + l
    else if m == 3 then 90 + l
    else if m == 4 then 120 + l
    else if m == 5 then 151 + l
    else if m == 6 then 181 + l
    else if m == 7 then 212 + l
    else if m == 8 then 243 + l
    else if m == 9 then 273 + l
    else if m == 10 then 304 + l
    else if m == 11 then 334 + l
    else 365 + l
  }

  lemma MonthsSpanYear(leap: bool)
    ensures DaysBeforeMonth(leap, 0) == 0 && DaysBeforeMonth(leap, 12) == if leap then 366 else 365
  {
  }

  lemma MonthsGrow(leap: bool, a: int, b: int)
    requires 0 <= a < b <= 12
    ensures DaysBeforeMonth(leap, a) < DaysBeforeMonth(leap, b)
  {
  }

  function MonthWithin(leap: bool, n: int, m: int): (r: int)
    requires 0 <= m <= 11 && DaysBeforeMonth(leap, m) <= n < DaysBeforeMonth(leap, 12)
    ensures 0 <= r <= 11 && DaysBeforeMonth(leap, r) <= n < DaysBeforeMonth(leap, r + 1)
    decreases 12 - m
  {
    if n < DaysBeforeMonth(leap, m + 1) then m else MonthWithin(leap, n, m + 1)
  }

  function DayWithinYear(d: int): (n: int)
    ensures 0 <= n < DaysInYear(YearFromDay(d))
  {
    NextYear(YearFromDay(d));
    d - DayFromYear(YearFromDay(d))
  }

  /** January is 0. */
  function MonthFromDay(d: int): (m: int)
    ensures 0 <= m <= 11
    ensures DaysBeforeMonth(IsLeap(YearFromDay(d)), m) <= DayWithinYear(d)
            < DaysBeforeMonth(IsLeap(YearFromDay(d)), m + 1)
  {
    hide DaysBeforeMonth, YearFromDay, DayFromYear;
    MonthsSpanYear(IsLeap(YearFromDay(d)));
    MonthWithin(IsLeap(YearFromDay(d)), DayWithinYear(d), 0)
  }

  function DateFromDay(d: int): int {
    DayWithinYear(d) - DaysBeforeMonth(IsLeap(YearFromDay(d)), MonthFromDay(d)) + 1
  }

  /** A month past December, or before January, moves into another year. */
  function MakeDay(year: int, month: int, date: int): int {
    var y, m := year + month / 12, month % 12;
    DayFromYear(y) + DaysBeforeMonth(IsLeap(y), m) + date - 1
  }

  /** A day in a known month of a known year has exactly that year and month. */
  lemma MonthIsUnique(d: int, y: int, m: int)
    requires 0 <= m <= 11
    requires DayFromYear(y) + DaysBeforeMonth(IsLeap(y), m) <= d < DayFromYear(y) + DaysBeforeMonth(IsLeap(y), m + 1)
    ensures YearFromDay(d) == y && MonthFromDay(d) == m
    ensures DateFromDay(d) == d - DayFromYear(y) - DaysBeforeMonth(IsLeap(y), m) + 1
  {
    hide DaysBeforeMonth, DayFromYear, YearFromDay, IsLeap;
    NextYear(y);
    MonthsSpanYear(IsLeap(y));
    if m < 11 {
      MonthsGrow(IsLeap(y), m + 1, 12);
    }
    if 0 < m {
      MonthsGrow(IsLeap(y), 0, m);
    }
    YearIsUnique(d, y);
    var r := MonthFromDay(d);
    if r < m {
      if r + 1 < m {
        MonthsGrow(IsLeap(y), r + 1, m);
      }
      assert false;
    } else if m < r {
      if m + 1 < r {
        MonthsGrow(IsLeap(y), m + 1, r);
      }
      assert false;
    }
  }

  /** Taking a day apart and putting it together again gives the same day. */
  lemma CivilRoundTrip(d: int)
    ensures MakeDay(YearFromDay(d), MonthFromDay(d), DateFromDay(d)) == d
  {
    hide YearFromDay, MonthFromDay, DaysBeforeMonth, DayFromYear, IsLeap;
  }

  /** Putting a civil date together and taking it apart again gives the same date, leap days included. */
  lemma CivilDateIsRecovered(y: int, m: int, date: int)
    requires 0 <= m <= 11
    requires 1 <= date <= DaysBeforeMonth(IsLeap(y), m + 1) - DaysBeforeMonth(IsLeap(y), m)
    ensures YearFromDay(MakeDay(y, m, date)) == y
    ensures MonthFromDay(MakeDay(y, m, date)) == m
    ensures DateFromDay(MakeDay(y, m, date)) == date
  {
    hide YearFromDay, MonthFromDay, DateFromDay, DaysBeforeMonth, DayFromYear, IsLeap;
    MonthIsUnique(MakeDay(y, m, date), y, m);
  }

  // ----- Date setters -----

  function SetUTCHours0(t: int): int {
    MakeDate(Day(t), 0)
  }

  function GetUTCDate(t: int): int {
    DateFromDay(Day(t))
  }

  function SetUTCDate(t: int, date: int): int {
    MakeDate(MakeDay(YearFromDay(Day(t)), MonthFromDay(Day(t)), date), TimeWithinDay(t))
  }

  function GetUTCMonth(t: int): int {
    MonthFromDay(Day(t))
  }

  function SetUTCMonth(t: int, month: int): int {
    MakeDate(MakeDay(YearFromDay(Day(t)), month, DateFromDay(Day(t))), TimeWithinDay(t))
  }

  /** Setting the date n days on moves the time by exactly n days, across month and year ends. */
  lemma DateStepsAreDays(t: int, n: int)
    ensures SetUTCDate(t, GetUTCDate(t) + n) == t + n * 86_400_000
  {
    hide YearFromDay, MonthFromDay, DateFromDay, DaysBeforeMonth, DayFromYear, IsLeap, Day;
    CivilRoundTrip(Day(t));
  }

  // ----- Day by day -----

  /** The days of a month, January being 0, by the Gregorian rule. */
  function DaysIn(y: int, m: int): int {
    if m == 3 || m == 5 || m == 8 || m == 10 then 30
    else if m != 1 then 31
    else if y % 400 == 0 || (y % 4 == 0 && y % 100 != 0) then 29
    else 28
  }

  lemma MonthLengths(y: int, m: int)
    requires 0 <= m <= 11
    ensures DaysBeforeMonth(IsLeap(y), m + 1) == DaysBeforeMonth(IsLeap(y), m) + DaysIn(y, m)
  {
    LeapRuleNests(y);
  }

  /** Day 0 is 1 January 1970, a Thursday. */
  lemma Epoch()
    ensures YearFromDay(0) == 1970 && MonthFromDay(0) == 0 && DateFromDay(0) == 1 && WeekDay(0) == 4
  {
    EpochFacts();
    hide DayFromYear, DaysBeforeMonth, IsLeap, YearFromDay, MonthFromDay, DateFromDay;
    MonthIsUnique(0, 1970, 0);
  }

  lemma EpochFacts()
    ensures DayFromYear(1970) == 0
    ensures DaysBeforeMonth(IsLeap(1970), 0) == 0 && DaysBeforeMonth(IsLeap(1970), 1) == 31
  {
    hide DayFromYear;
    YearOne();
  }

  lemma YearOne()
    ensures DayFromYear(1970) == 0
  {
  }

  /** The day after a day is the next date, or the first of the next month, or New Year, and the next weekday. */
  lemma NextDay(d: int)
    ensures var y, m, date := YearFromDay(d), MonthFromDay(d), DateFromDay(d);
            && 1 <= date <= DaysIn(y, m)
            && (if date < DaysIn(y, m)
                then YearFromDay(d + 1) == y && MonthFromDay(d + 1) == m && DateFromDay(d + 1) == date + 1
                else
                  && YearFromDay(d + 1) == (if m == 11 then y + 1 else y)
                  && MonthFromDay(d + 1) == (if m == 11 then 0 else m + 1) && DateFromDay(d + 1) == 1)
    ensures WeekDay((d + 1) * 86_400_000) == (WeekDay(d * 86_400_000) + 1) % 7
  {
    var y, m, date := YearFromDay(d), MonthFromDay(d), DateFromDay(d);
    MonthLengths(y, m);
    NextWeekDay(d);
    hide YearFromDay, MonthFromDay, DaysBeforeMonth, DayFromYear, IsLeap, DaysIn, WeekDay;
    if date < DaysIn(y, m) {
      MonthIsUnique(d + 1, y, m);
    } else if m < 11 {
      NextMonthStarts(d, y, m);
    } else {
      NextYearStarts(d, y);
    }
  }

  lemma NextMonthStarts(d: int, y: int, m: int)
    requires 0 <= m < 11 && d + 1 == DayFromYear(y) + DaysBeforeMonth(IsLeap(y), m + 1)
    ensures YearFromDay(d + 1) == y && MonthFromDay(d + 1) == m + 1 && DateFromDay(d + 1) == 1
  {
    hide YearFromDay, MonthFromDay, DaysBeforeMonth, DayFromYear, IsLeap, DateFromDay;
    MonthsGrow(IsLeap(y), m + 1, m + 2);
    MonthIsUnique(d + 1, y, m + 1);
  }

  lemma NextYearStarts(d: int, y: int)
    requires d + 1 == DayFromYear(y) + DaysBeforeMonth(IsLeap(y), 12)
    ensures YearFromDay(d + 1) == y + 1 && MonthFromDay(d + 1) == 0 && DateFromDay(d + 1) == 1
  {
    hide YearFromDay, MonthFromDay, DaysBeforeMonth, DayFromYear, IsLeap, DateFromDay;
    NextYear(y);
    MonthsSpanYear(IsLeap(y));
    MonthsSpanYear(IsLeap(y + 1));
    MonthsGrow(IsLeap(y + 1), 0, 1);
    MonthIsUnique(d + 1, y + 1, 0);
  }

  lemma NextWeekDay(d: int)
    ensures WeekDay((d + 1) * 86_400_000) == (WeekDay(d * 86_400_000) + 1) % 7
  {
    assert Day((d + 1) * 86_400_000) == d + 1 && Day(d * 86_400_000) == d;
  }
}
