/** Daily, weekly and monthly periods, and why they tile UTC time. */
module QuotaPeriods {
  import opened Calendar

  datatype Kind = Daily | Weekly | Monthly

  /** The letters of the period names in lower case; the Kelvin sign is the one other way to write one of them. */
  function LowerChar(c: char): char {
    if 'A' <= c <= 'Z' then (c as int + 32) as char
    else if c == '\U{212A}' then 'k'
    else c
  }

  function Lower(s: string): string {
    seq(|s|, i requires 0 <= i < |s| => LowerChar(s[i]))
  }

  /** Anything that is not daily or weekly is monthly. */
  function KindOf(periodType: string): Kind {
    if Lower(periodType) == "daily" then Daily
    else if Lower(periodType) == "weekly" then Weekly
    else Monthly
  }

  datatype Period = Period(start: int, end: int)

  function FirstDay(kind: Kind, d: int): int {
    match kind
    case Daily => d
    case Weekly => d - (d + 3) % 7
    case Monthly => MonthBegin(d)
  }

  /** The first day after the period. */
  function EndDay(kind: Kind, d: int): int {
    match kind
    case Daily => d + 1
    case Weekly => d - (d + 3) % 7 + 7
    case Monthly => MonthEnd(d)
  }

  function MonthBegin(d: int): int {
    DayFromYear(YearFromDay(d)) + DaysBeforeMonth(IsLeap(YearFromDay(d)), MonthFromDay(d))
  }

  function MonthEnd(d: int): int {
    DayFromYear(YearFromDay(d)) + DaysBeforeMonth(IsLeap(YearFromDay(d)), MonthFromDay(d) + 1)
  }

  function PeriodOf(kind: Kind, now: int): Period {
    Period(FirstDay(kind, Day(now)) * 86_400_000, EndDay(kind, Day(now)) * 86_400_000)
  }

  // ----- The calculation -----

  /** The period by stepping two dates field by field. */
  method CalculatePeriod(periodType: string, now: int) returns (start: int, end: int)
    ensures Period(start, end) == PeriodOf(KindOf(periodType), now)
    ensures IsPeriodByText(periodType, now, Period(start, end))
  {
    PeriodsByText(periodType, now);
    hide IsPeriodByText;
    hide YearFromDay, MonthFromDay, DateFromDay, DaysBeforeMonth, DayFromYear, IsLeap, Day;
    start, end := now, now;
    match KindOf(periodType)
    case Daily =>
      start := SetUTCHours0(start);
      DateStepsAreDays(end, 1);
      end := SetUTCDate(end, GetUTCDate(end) + 1);
      DayMoves(now, 1);
      end := SetUTCHours0(end);
    case Weekly =>
      var day := WeekDay(start);
      var daysFromMonday := if day == 0 then 6 else day - 1;
      DaysFromMonday(Day(now));
      DateStepsAreDays(start, -daysFromMonday);
      start := SetUTCDate(start, GetUTCDate(start) - daysFromMonday);
      DayMoves(now, -daysFromMonday);
      start := SetUTCHours0(start);
      end := start;
      DateStepsAreDays(end, 7);
      end := SetUTCDate(end, GetUTCDate(end) + 7);
    case Monthly =>
      start := SetUTCDate(start, 1);
      start := SetUTCHours0(start);
      FirstOfMonth(now);
      end := start;
      FirstOfNextMonth(Day(now));
      end := SetUTCMonth(end, GetUTCMonth(end) + 1);
  }

  lemma DayMoves(t: int, n: int)
    ensures Day(t + n * 86_400_000) == Day(t) + n
  {
  }

  lemma DaysFromMonday(d: int)
    ensures (if (d + 4) % 7 == 0 then 6 else (d + 4) % 7 - 1) == (d + 3) % 7
  {
  }

  /** Date 1 at midnight is the month's first day. */
  lemma FirstOfMonth(t: int)
    ensures SetUTCHours0(SetUTCDate(t, 1)) == MonthBegin(Day(t)) * 86_400_000
  {
    hide YearFromDay, MonthFromDay, DateFromDay, IsLeap, DaysBeforeMonth, DayFromYear;
    FirstIsMonthBegin(Day(t));
  }

  lemma FirstIsMonthBegin(d: int)
    ensures MakeDay(YearFromDay(d), MonthFromDay(d), 1) == MonthBegin(d)
  {
    hide YearFromDay, MonthFromDay, DateFromDay, IsLeap, DaysBeforeMonth, DayFromYear;
  }

  /** Stepping the month of the first day is the next month's first day. */
  lemma FirstOfNextMonth(d: int)
    ensures var s := MonthBegin(d) * 86_400_000; SetUTCMonth(s, GetUTCMonth(s) + 1) == MonthEnd(d) * 86_400_000
  {
    hide YearFromDay, MonthFromDay, DateFromDay, IsLeap, DaysBeforeMonth, DayFromYear, MonthBegin, MonthEnd, MakeDay;
    assert Day(MonthBegin(d) * 86_400_000) == MonthBegin(d);
    FirstDayOfMonth(d);
    MakeNextMonth(d);
  }

  lemma FirstDayOfMonth(d: int)
    ensures YearFromDay(MonthBegin(d)) == YearFromDay(d) && MonthFromDay(MonthBegin(d)) == MonthFromDay(d)
    ensures DateFromDay(MonthBegin(d)) == 1
    ensures MonthBegin(d) <= d < MonthEnd(d)
  {
    hide YearFromDay, MonthFromDay, DateFromDay, IsLeap, DaysBeforeMonth, DayFromYear;
    MonthIsUnique(MonthBegin(d), YearFromDay(d), MonthFromDay(d));
  }

  lemma MakeNextMonth(d: int)
    ensures MakeDay(YearFromDay(d), MonthFromDay(d) + 1, 1) == MonthEnd(d)
  {
    hide YearFromDay, MonthFromDay, DateFromDay, DayFromYear;
    NextYear(YearFromDay(d));
  }

  // ----- Tiling -----

  /** A period contains its instant, every instant of it has the same period, and its end begins the next. */
  lemma PeriodsTile(kind: Kind, now: int, t: int)
    ensures PeriodOf(kind, now).start <= now < PeriodOf(kind, now).end
    ensures PeriodOf(kind, now).start <= t < PeriodOf(kind, now).end ==> PeriodOf(kind, t) == PeriodOf(kind, now)
    ensures PeriodOf(kind, PeriodOf(kind, now).end).start == PeriodOf(kind, now).end
  {
    hide FirstDay, EndDay;
    var d := Day(now);
    DaysTile(kind, d, Day(t));
    assert Day(EndDay(kind, d) * 86_400_000) == EndDay(kind, d);
  }

  lemma DaysTile(kind: Kind, d: int, e: int)
    ensures FirstDay(kind, d) <= d < EndDay(kind, d)
    ensures FirstDay(kind, d) <= e < EndDay(kind, d) ==>
              FirstDay(kind, e) == FirstDay(kind, d) && EndDay(kind, e) == EndDay(kind, d)
    ensures FirstDay(kind, EndDay(kind, d)) == EndDay(kind, d)
  {
    match kind
    case Daily =>
    case Weekly => WeeksTile(d, e);
    case Monthly => MonthsTile(d, e);
  }

  lemma WeeksTile(d: int, e: int)
    ensures d - (d + 3) % 7 <= e < d - (d + 3) % 7 + 7 ==> e - (e + 3) % 7 == d - (d + 3) % 7
    ensures (d - (d + 3) % 7 + 7 + 3) % 7 == 0
  {
    var q := (d + 3) / 7;
    assert d - (d + 3) % 7 + 3 == 7 * q;
    if d - (d + 3) % 7 <= e < d - (d + 3) % 7 + 7 {
      assert 7 * q <= e + 3 < 7 * q + 7;
      assert (e + 3) / 7 == q;
    }
  }

  lemma MonthsTile(d: int, e: int)
    ensures MonthBegin(d) <= d < MonthEnd(d)
    ensures MonthBegin(d) <= e < MonthEnd(d) ==> MonthBegin(e) == MonthBegin(d) && MonthEnd(e) == MonthEnd(d)
    ensures MonthBegin(MonthEnd(d)) == MonthEnd(d)
  {
    hide YearFromDay, MonthFromDay, DateFromDay, IsLeap, DaysBeforeMonth, DayFromYear;
    FirstDayOfMonth(d);
    if MonthBegin(d) <= e < MonthEnd(d) {
      MonthIsUnique(e, YearFromDay(d), MonthFromDay(d));
    }
    NextMonthBegins(YearFromDay(d), MonthFromDay(d));
  }

  /** The day after a month's last is the first of the next month, January of the next year after December. */
  lemma NextMonthBegins(y: int, m: int)
    requires 0 <= m <= 11
    ensures var d := DayFromYear(y) + DaysBeforeMonth(IsLeap(y), m + 1);
            && MonthBegin(d) == d
            && YearFromDay(d) == (if m == 11 then y + 1 else y)
            && MonthFromDay(d) == (m + 1) % 12
  {
    hide YearFromDay, MonthFromDay, DateFromDay, DayFromYear;
    var d := DayFromYear(y) + DaysBeforeMonth(IsLeap(y), m + 1);
    if m == 11 {
      NextYear(y);
      MonthIsUnique(d, y + 1, 0);
    } else {
      MonthsGrow(IsLeap(y), m + 1, m + 2);
      MonthIsUnique(d, y, m + 1);
    }
  }

  /** A day runs from midnight to midnight, a week from Monday to Monday. */
  lemma DaysAndWeeks(now: int)
    ensures var p := PeriodOf(Daily, now); p.end == p.start + 86_400_000 && TimeWithinDay(p.start) == 0
    ensures var p := PeriodOf(Weekly, now);
            && p.end == p.start + 7 * 86_400_000 && TimeWithinDay(p.start) == 0 && WeekDay(p.start) == 1
  {
    hide MonthBegin, MonthEnd;
    WeeksTile(Day(now), Day(now));
  }

  /** A month runs from midnight of its first to midnight of the next month's first. */
  lemma Months(now: int)
    ensures var p := PeriodOf(Monthly, now);
            && TimeWithinDay(p.start) == 0 && GetUTCDate(p.start) == 1 && GetUTCDate(p.end) == 1
            && GetUTCMonth(p.start) == GetUTCMonth(now) && GetUTCMonth(p.end) == (GetUTCMonth(now) + 1) % 12
            && YearFromDay(Day(p.start)) == YearFromDay(Day(now))
  {
    hide YearFromDay, MonthFromDay, DateFromDay, DayFromYear, IsLeap, DaysBeforeMonth, MonthBegin, MonthEnd;
    var d := Day(now);
    FirstDayOfMonth(d);
    assert Day(MonthBegin(d) * 86_400_000) == MonthBegin(d);
    MonthAfter(d);
    FirstDayOfMonth(MonthEnd(d));
    assert Day(MonthEnd(d) * 86_400_000) == MonthEnd(d);
  }

  lemma MonthAfter(d: int)
    ensures MonthBegin(MonthEnd(d)) == MonthEnd(d) && MonthFromDay(MonthEnd(d)) == (MonthFromDay(d) + 1) % 12
  {
    hide YearFromDay, MonthFromDay, DateFromDay, DayFromYear, IsLeap, DaysBeforeMonth;
    NextMonthBegins(YearFromDay(d), MonthFromDay(d));
  }

  // ----- The period that a text names -----

  /** The text is the word, given in small letters, in any letter case. */
  predicate Spells(s: string, word: string) {
    && |s| == |word|
    && forall i | 0 <= i < |s| ::
         || s[i] == word[i]
         || s[i] as int == word[i] as int - 32
         || (word[i] == 'k' && s[i] == '\U{212A}')
  }

  predicate IsSmall(word: string) {
    forall i | 0 <= i < |word| :: 'a' <= word[i] <= 'z'
  }

  lemma SpellsIffLower(s: string, word: string)
    requires IsSmall(word)
    ensures Lower(s) == word <==> Spells(s, word)
  {
    if Lower(s) == word {
      forall i | 0 <= i < |s|
        ensures s[i] == word[i] || s[i] as int == word[i] as int - 32 || (word[i] == 'k' && s[i] == '\U{212A}')
      {
        assert Lower(s)[i] == LowerChar(s[i]);
      }
    }
    if Spells(s, word) {
      forall i | 0 <= i < |s|
        ensures LowerChar(s[i]) == word[i]
      {
      }
      assert Lower(s) == word;
    }
  }

  /**
   The period of an instant by the text: 24 hours from midnight for daily; seven days from a
   Monday, as 5 January 1970 was, for weekly; and for every other text from midnight of date 1
   of the instant's own month to midnight of date 1 of the next.
   */
  predicate IsPeriodByText(periodType: string, now: int, p: Period) {
    && p.start <= now < p.end && p.start % 86_400_000 == 0
    && (Spells(periodType, "daily") ==> p.end == p.start + 86_400_000)
    && (Spells(periodType, "weekly") ==> p.end == p.start + 604_800_000 && (p.start / 86_400_000) % 7 == 4)
    && (!Spells(periodType, "daily") && !Spells(periodType, "weekly") ==> IsMonthOf(now, p))
  }

  predicate IsMonthOf(now: int, p: Period) {
    && GetUTCDate(p.start) == 1 && GetUTCDate(p.end) == 1 && p.end % 86_400_000 == 0
    && GetUTCMonth(p.start) == GetUTCMonth(now) && YearFromDay(Day(p.start)) == YearFromDay(Day(now))
    && GetUTCMonth(p.end) == (GetUTCMonth(now) + 1) % 12
    && YearFromDay(Day(p.end)) == YearFromDay(Day(now)) + (if GetUTCMonth(now) == 11 then 1 else 0)
    && p.end == p.start + DaysIn(YearFromDay(Day(now)), GetUTCMonth(now)) * 86_400_000
  }

  lemma KindBySpelling(periodType: string)
    ensures Spells(periodType, "daily") <==> KindOf(periodType) == Daily
    ensures Spells(periodType, "weekly") <==> KindOf(periodType) == Weekly
  {
    SpellsIffLower(periodType, "daily");
    SpellsIffLower(periodType, "weekly");
    hide Spells, Lower;
  }

  lemma PeriodsByText(periodType: string, now: int)
    ensures IsPeriodByText(periodType, now, PeriodOf(KindOf(periodType), now))
  {
    KindBySpelling(periodType);
    hide Spells, KindOf, IsMonthOf, PeriodOf;
    PeriodsTile(KindOf(periodType), now, now);
    PeriodsAreWholeDays(now);
    MonthlyIsMonth(now);
  }

  lemma PeriodsAreWholeDays(now: int)
    ensures forall kind: Kind :: PeriodOf(kind, now).start % 86_400_000 == 0
    ensures PeriodOf(Daily, now).end == PeriodOf(Daily, now).start + 86_400_000
    ensures PeriodOf(Weekly, now).end == PeriodOf(Weekly, now).start + 604_800_000
    ensures (PeriodOf(Weekly, now).start / 86_400_000) % 7 == 4
  {
    DaysAndWeeks(now);
    WholeDays(FirstDay(Weekly, Day(now)));
    MondayIsFour(Day(now));
    assert (PeriodOf(Weekly, now).start / 86_400_000) % 7 == 4;
    hide FirstDay, EndDay;
    forall kind: Kind
      ensures PeriodOf(kind, now).start % 86_400_000 == 0
    {
      WholeDays(FirstDay(kind, Day(now)));
    }
  }

  lemma WholeDays(n: int)
    ensures n * 86_400_000 % 86_400_000 == 0 && n * 86_400_000 / 86_400_000 == n
  {
  }

  lemma MondayIsFour(d: int)
    ensures (d - (d + 3) % 7) % 7 == 4
  {
  }

  lemma MonthlyIsMonth(now: int)
    ensures IsMonthOf(now, PeriodOf(Monthly, now))
  {
    hide YearFromDay, MonthFromDay, DateFromDay, DayFromYear, IsLeap, DaysBeforeMonth, MonthBegin, MonthEnd, DaysIn;
    Months(now);
    var d := Day(now);
    assert Day(MonthEnd(d) * 86_400_000) == MonthEnd(d);
    YearAfter(d);
    MonthLasts(d);
  }

  lemma MonthLasts(d: int)
    ensures MonthEnd(d) == MonthBegin(d) + DaysIn(YearFromDay(d), MonthFromDay(d))
  {
    hide YearFromDay, MonthFromDay, DaysIn, DayFromYear, IsLeap, DaysBeforeMonth;
    MonthLengths(YearFromDay(d), MonthFromDay(d));
  }

  lemma YearAfter(d: int)
    ensures YearFromDay(MonthEnd(d)) == YearFromDay(d) + if MonthFromDay(d) == 11 then 1 else 0
  {
    hide YearFromDay, MonthFromDay, DateFromDay, DayFromYear, IsLeap, DaysBeforeMonth;
    NextMonthBegins(YearFromDay(d), MonthFromDay(d));
  }
}
