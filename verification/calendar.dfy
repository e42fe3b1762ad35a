/**
 The civil (proleptic Gregorian) calendar, used only to reproduce how the
 presence queries build "the start of today": from the year of one clock
 reading, the month of a second and the day of a third. The conversions are
 the well-known days-from-civil and civil-from-days algorithms on 400-year eras.
 */
module Calendar {
  import opened Clock

  datatype Date = Date(year: int, month: int, day: int)

  /** The civil date of day number `z`, day 0 being 1970-01-01. Days are
      counted within 400-year eras starting on 0000-03-01, and years within an
      era start on March 1st so that a leap day falls at the end of a year. */
  function CivilFromDays(z: int): Date {
    var shifted := z + 719468;
    var era := shifted / 146097;
    var doe := shifted % 146097;
    var yoe := YearOfEra(doe);
    var doy := doe - (365 * yoe + yoe / 4 - yoe / 100);
    var m := MonthFromMarch(doy);
    var d := doy - (153 * m + 2) / 5 + 1;
    var month := if m < 10 then m + 3 else m - 9;
    Date(yoe + era * 400 + (if month <= 2 then 1 else 0), month, d)
  }

  /** The year within an era of day `doe` of that era. */
  function YearOfEra(doe: int): int {
    (doe - doe / 1460 + doe / 36524 - doe / 146096) / 365
  }

  /** The month, counted from March as 0, of day `doy` of a March-based year. */
  function MonthFromMarch(doy: int): int {
    (5 * doy + 2) / 153
  }

  /** The day number of a civil date, day 0 being 1970-01-01. */
  function DaysFromCivil(date: Date): int {
    var y := date.year - (if date.month <= 2 then 1 else 0);
    var era := y / 400;
    var yoe := y - era * 400;
    var doy := (153 * (if date.month > 2 then date.month - 3 else date.month + 9) + 2) / 5 + date.day - 1;
    var doe := yoe * 365 + yoe / 4 - yoe / 100 + doy;
    era * 146097 + doe - 719468
  }

  /** `datetime(now().year, now().month, now().day)` with three separate
      readings `t1`, `t2`, `t3` of the clock, taken in that order. */
  function TodayStartFromReadings(t1: int, t2: int, t3: int): (r: int)
    ensures DayStart(r) == r
  {
    var date := Date(CivilFromDays(Day(t1)).year, CivilFromDays(Day(t2)).month, CivilFromDays(Day(t3)).day);
    var days := DaysFromCivil(date);
    MidnightIsItsOwnDayStart(days);
    days * SecondsPerDay
  }

  lemma MidnightIsItsOwnDayStart(days: int)
    ensures DayStart(days * SecondsPerDay) == days * SecondsPerDay
  {
    var s := days * SecondsPerDay;
    assert s % SecondsPerDay == 0;
    DayStartUnique(s, s);
  }

  /** The year is read at 2024-12-31 23:59:59 and the month and day one
      second later, at 2025-01-01 00:00:00: the query boundary becomes
      2024-01-01 00:00:00, a whole year before the midnight that had just
      passed, so a presence recorded on 2024-12-31 counts as today's. With
      one reading the boundary is that midnight and the presence does not
      count. */
  lemma MidnightBetweenReadings()
    ensures CivilFromDays(Day(1735689599)) == Date(2024, 12, 31)
    ensures CivilFromDays(Day(1735689600)) == Date(2025, 1, 1)
    ensures TodayStartFromReadings(1735689599, 1735689600, 1735689600) == 1704067200
    ensures DayStart(1735689600) == 1735689600
    ensures DayStart(1735689600) - TodayStartFromReadings(1735689599, 1735689600, 1735689600) == 366 * SecondsPerDay
    ensures var yesterday := 1735603200;
      yesterday >= TodayStartFromReadings(1735689599, 1735689600, 1735689600) && yesterday < DayStart(1735689600)
  {
    NewYearDates();
    NewYearBoundary();
    assert 1735689600 % SecondsPerDay == 0;
    DayStartUnique(1735689600, 1735689600);
  }

  /** The boundary the three readings give is 2024-01-01 00:00:00. */
  lemma NewYearBoundary()
    ensures TodayStartFromReadings(1735689599, 1735689600, 1735689600) == 1704067200
  {
    NewYearDates();
    var date := Date(CivilFromDays(Day(1735689599)).year, CivilFromDays(Day(1735689600)).month,
                     CivilFromDays(Day(1735689600)).day);
    assert date == Date(2024, 1, 1);
    FirstDayOf2024();
    assert 19723 * SecondsPerDay == 1704067200;
  }

  /** 2024-01-01 is day 19723: 2023 is year 23 of the era starting in 2000,
      and January is month 10 counted from March. */
  lemma FirstDayOf2024()
    ensures DaysFromCivil(Date(2024, 1, 1)) == 19723
  {
    assert (153 * 10 + 2) / 5 == 306;
    assert 23 * 365 + 23 / 4 - 23 / 100 + 306 == 8706;
    assert 5 * 146097 + 8706 - 719468 == 19723;
  }

  /** The civil dates of the two readings either side of the New Year. */
  lemma NewYearDates()
    ensures CivilFromDays(Day(1735689599)) == Date(2024, 12, 31)
    ensures CivilFromDays(Day(1735689600)) == Date(2025, 1, 1)
  {
    assert Day(1735689599) == 20088;
    assert Day(1735689600) == 20089;
    assert YearOfEra(9071) == 24 && MonthFromMarch(305) == 9;
    assert CivilFromDays(20088) == Date(2024, 12, 31);
    assert YearOfEra(9072) == 24 && MonthFromMarch(306) == 10;
  }
}
