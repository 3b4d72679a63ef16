/** Day arithmetic on integer day numbers (days since 1970-01-01, UTC) that the
    analytics folds use in place of JavaScript `Date` objects. */
module Calendar {

  const MsPerDay: int := 86_400_000

  /** The calendar day (UTC) an instant falls on; the date part of its ISO string. */
  function DayOf(timestamp: int): (day: int)
    ensures day * MsPerDay <= timestamp < (day + 1) * MsPerDay
  {
    timestamp / MsPerDay
  }

  /** Day of week as `Date.getDay` numbers it: 0 is Sunday, 1 is Monday, … 6 is
      Saturday. Day 0 (1970-01-01) was a Thursday. */
  function Weekday(day: int): (w: int)
    ensures 0 <= w < 7
  {
    (day + 4) % 7
  }

  /** The weekday numbering agrees with the calendar: 1 January 1970 is a
      Thursday, each following day is the next weekday, Saturday is followed
      by Sunday, and the numbering repeats every seven days. */
  lemma WeekdayCycle(day: int)
    ensures Weekday(0) == 4
    ensures Weekday(day + 1) == (Weekday(day) + 1) % 7
    ensures Weekday(day) == 6 ==> Weekday(day + 1) == 0
    ensures Weekday(day + 7) == Weekday(day)
  {
  }

  /** The Monday on or before `day` (the week starts on Monday). */
  function StartOfWeek(day: int): (monday: int)
    ensures Weekday(monday) == 1
    ensures monday <= day <= monday + 6
  {
    var wd := Weekday(day);
    var diff := (if wd == 0 then -6 else 1) - wd;
    day + diff
  }

  lemma StartOfWeekOfMonday(day: int)
    requires Weekday(day) == 1
    ensures StartOfWeek(day) == day
  {
  }

  /** Two days in the same Monday-based week share their week start. */
  lemma SameWeekSameStart(a: int, b: int)
    requires StartOfWeek(a) <= b <= StartOfWeek(a) + 6
    ensures StartOfWeek(b) == StartOfWeek(a)
  {
    var m := StartOfWeek(a);
    var mb := StartOfWeek(b);
    assert (m + 4) % 7 == 1;
    assert (mb + 4) % 7 == 1;
    assert (mb - m) % 7 == 0;
  }

  datatype CivilDate = CivilDate(year: int, month: int, day: int)

  /** Proleptic Gregorian date of a day number (H. Hinnant's civil_from_days).
      The calendar is counted in 400-year eras of 146097 days, each year
      starting on 1 March; the month and the day always name a real calendar
      position. */
  function CivilFromDays(days: int): (d: CivilDate)
    ensures 1 <= d.month <= 12 && 1 <= d.day <= 31
  {
    var z := days + 719468;
    var era := z / 146097;
    var doe := z - era * 146097;
    DayOfYearRange(doe);
    DateAt(era, YearOfEra(doe), DayOfYear(doe))
  }

  /** The date at day `doy` (from 1 March) of year `yoe` of era `era`. */
  function DateAt(era: int, yoe: int, doy: int): (d: CivilDate)
    requires 0 <= doy <= 365
    ensures 1 <= d.month <= 12 && 1 <= d.day <= 31
  {
    var y := yoe + era * 400;
    var mp := (5 * doy + 2) / 153;
    var dd := doy - (153 * mp + 2) / 5 + 1;
    var m := if mp < 10 then mp + 3 else mp - 9;
    CivilDate(if m <= 2 then y + 1 else y, m, dd)
  }

  /** Year within the era of its day `doe`, the year starting on 1 March. */
  function YearOfEra(doe: int): int {
    (doe - doe / 1460 + doe / 36524 - doe / 146096) / 365
  }

  /** Day within the March-based year of the era's day `doe`. */
  function DayOfYear(doe: int): int {
    var yoe := YearOfEra(doe);
    doe - (365 * yoe + yoe / 4 - yoe / 100)
  }

  /** Every day of an era lies in one of its 400 years, at one of at most 366
      positions. */
  lemma DayOfYearRange(doe: int)
    requires 0 <= doe <= 146096
    ensures 0 <= YearOfEra(doe) <= 399 && 0 <= DayOfYear(doe) <= 365
  {
    if doe < 146096 {
      var c := doe / 36524;
      var q := (doe - 36524 * c) / 1461;
      DayOfYearInBlock(doe, c, q, doe - 36524 * c - 1461 * q);
    } else {
      assert doe / 1460 == 100 && doe / 36524 == 4 && doe / 146096 == 1;
      assert YearOfEra(doe) == 145999 / 365 == 399;
      assert DayOfYear(doe) == 365;
    }
  }

  /** The same, for a day `u` into the four-year block `q` of the century `c`:
      the year is `100 * c + 4 * q + a` and the day `u - 365 * a`. */
  lemma DayOfYearInBlock(doe: int, c: int, q: int, u: int)
    requires 0 <= c <= 3 && 0 <= q <= 24 && 0 <= u <= 1460
    requires doe == 36524 * c + 1461 * q + u && doe < 36524 * (c + 1)
    ensures 0 <= YearOfEra(doe) <= 399 && 0 <= DayOfYear(doe) <= 365
  {
    assert doe / 36524 == c;
    assert doe / 146096 == 0;
    var k := (24 * c + q + u) / 1460;
    assert 0 <= k <= 1;
    assert doe == 1460 * (25 * c + q) + (24 * c + q + u);
    assert doe / 1460 == 25 * c + q + k;
    var a := (u - k) / 365;
    assert 0 <= a <= 3;
    var yoe := 100 * c + 4 * q + a;
    assert doe - doe / 1460 + doe / 36524 - doe / 146096 == 365 * (100 * c + 4 * q) + (u - k);
    assert YearOfEra(doe) == yoe;
    assert yoe / 4 == 25 * c + q && yoe / 100 == c;
    assert DayOfYear(doe) == u - 365 * a;
  }

  /** The inverse conversion (H. Hinnant's days_from_civil): the day number
      of a proleptic Gregorian date. */
  function DaysFromCivil(d: CivilDate): int {
    var y := if d.month <= 2 then d.year - 1 else d.year;
    var era := y / 400;
    var yoe := y - era * 400;
    var mp := (d.month + 9) % 12;
    var doy := (153 * mp + 2) / 5 + d.day - 1;
    var doe := yoe * 365 + yoe / 4 - yoe / 100 + doy;
    era * 146097 + doe - 719468
  }

  /** Converting a day number to its date and back gives the day number:
      distinct days have distinct dates. */
  lemma CivilRoundTrip(days: int)
    ensures DaysFromCivil(CivilFromDays(days)) == days
  {
    var z := days + 719468;
    var era := z / 146097;
    var doe := z - era * 146097;
    DayOfYearRange(doe);
    var yoe, doy := YearOfEra(doe), DayOfYear(doe);
    assert CivilFromDays(days) == DateAt(era, yoe, doy);
    DateOfPosition(era, yoe, doy);
    assert doe == 365 * yoe + yoe / 4 - yoe / 100 + doy;
  }

  /** The date at day `doy` of year `yoe` of era `era`, converted back, is
      that day's number. */
  lemma DateOfPosition(era: int, yoe: int, doy: int)
    requires 0 <= yoe <= 399 && 0 <= doy <= 365
    ensures DaysFromCivil(DateAt(era, yoe, doy))
            == era * 146097 + (365 * yoe + yoe / 4 - yoe / 100 + doy) - 719468
  {
    var mp := (5 * doy + 2) / 153;
    assert 0 <= mp <= 11;
    var m := if mp < 10 then mp + 3 else mp - 9;
    assert (m + 9) % 12 == mp;
    var y := yoe + era * 400;
    assert y / 400 == era;
  }

  /** Months counted from year 0: the key of the calendar month `day` lies in.
      Month index `k` is month `k % 12 + 1` of year `k / 12`. */
  function MonthIndex(day: int): (k: int)
    ensures k / 12 == CivilFromDays(day).year && k % 12 + 1 == CivilFromDays(day).month
  {
    var c := CivilFromDays(day);
    c.year * 12 + c.month - 1
  }

  lemma EpochIsJanuaryFirst1970()
    ensures CivilFromDays(0) == CivilDate(1970, 1, 1)
    ensures MonthIndex(0) == 1970 * 12
  {
    assert 719468 / 146097 == 4;
    assert 135080 / 1460 == 92 && 135080 / 36524 == 3 && 135080 / 146096 == 0;
    assert 134991 / 365 == 369;
    assert 369 / 4 == 92 && 369 / 100 == 3;
    assert 1532 / 153 == 10 && 1532 / 5 == 306;
  }

  lemma LeapDay2024()
    ensures CivilFromDays(19782) == CivilDate(2024, 2, 29)
  {
    assert 739250 / 146097 == 5;
    assert 8765 / 1460 == 6 && 8765 / 36524 == 0 && 8765 / 146096 == 0;
    assert 8759 / 365 == 23;
    assert 23 / 4 == 5 && 23 / 100 == 0;
    assert 1827 / 153 == 11 && 1685 / 5 == 337;
  }

  lemma DayBeforeEpoch()
    ensures CivilFromDays(-1) == CivilDate(1969, 12, 31)
  {
    assert 719467 / 146097 == 4;
    assert 135079 / 1460 == 92 && 135079 / 36524 == 3 && 135079 / 146096 == 0;
    assert 134990 / 365 == 369;
    assert 369 / 4 == 92 && 369 / 100 == 3;
    assert 1527 / 153 == 9 && 1379 / 5 == 275;
  }

  lemma FirstMondayOf2024()
    ensures Weekday(19723) == 1 && StartOfWeek(19729) == 19723
  {
  }
}
