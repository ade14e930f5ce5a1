/** Time values as ECMAScript defines them: milliseconds since 1970-01-01T00:00Z on
    the proleptic Gregorian calendar, with the `MakeDay`/`MakeTime`/`MakeDate`/
    `TimeClip` steps that `Date.UTC` and `new Date(t)` perform. A NaN time value (an
    Invalid Date) is `None`. */
module Calendar {
  import opened Common

  const MsPerMinute := 60000
  const MsPerHour := 3600000
  const MsPerDay := 86400000
  /** The largest magnitude of a valid time value (section 21.4.1.1 of ECMA-262). */
  const MaxTime := 8640000000000000

  predicate IsLeapYear(y: int) {
    y % 4 == 0 && (y % 100 != 0 || y % 400 == 0)
  }

  /** The length of month `monthIdx` (0 = January) of year `y`. */
  function DaysInMonth(y: int, monthIdx: int): (n: int)
    requires 0 <= monthIdx < 12
    ensures 28 <= n <= 31
    ensures n == 29 <==> monthIdx == 1 && IsLeapYear(y)
  {
    if monthIdx == 1 then (if IsLeapYear(y) then 29 else 28)
    else if monthIdx == 3 || monthIdx == 5 || monthIdx == 8 || monthIdx == 10 then 30
    else 31
  }

  /** The number of days from 1970-01-01 to year `y`, month `m` (1 = January), day
      `d`, counted on the proleptic Gregorian calendar (H. Hinnant's
      days_from_civil, with floor division). */
  function DaysFromCivil(y: int, m: int, d: int): int
    requires 1 <= m <= 12
  {
    var yy := if m <= 2 then y - 1 else y;
    var era := yy / 400;
    var yoe := yy % 400;
    var mp := if m > 2 then m - 3 else m + 9;
    var doy := (153 * mp + 2) / 5 + d - 1;
    var doe := yoe * 365 + yoe / 4 - yoe / 100 + doy;
    era * 146097 + doe - 719468
  }

  /** Consecutive days of a month have consecutive day numbers. */
  lemma DaysWithinMonth(y: int, m: int, d: int)
    requires 1 <= m <= 12
    ensures DaysFromCivil(y, m, d) == DaysFromCivil(y, m, 1) + d - 1
  {
  }

  /** Day numbers of known dates. */
  lemma DaysFromCivilKnownDates()
    ensures DaysFromCivil(1970, 1, 1) == 0
    ensures DaysFromCivil(2000, 3, 1) == 11017
    ensures DaysFromCivil(2025, 3, 14) == 20161
  {
  }

  /** Within a year, the first day of a month follows the last day of the month
      before it. */
  lemma NextMonthFollows(y: int, monthIdx: int)
    requires 0 <= monthIdx < 11
    ensures DaysFromCivil(y, monthIdx + 2, 1) == DaysFromCivil(y, monthIdx + 1, DaysInMonth(y, monthIdx)) + 1
  {
    if monthIdx == 1 {
      FebruaryLength(y);
    }
  }

  /** New Year's Day follows the last day of December. */
  lemma NextYearFollows(y: int)
    ensures DaysFromCivil(y + 1, 1, 1) == DaysFromCivil(y, 12, 31) + 1
  {
  }

  /** The days from the first of February to the first of March are the days of a
      leap year's or a common year's February. */
  lemma FebruaryLength(y: int)
    ensures DaysFromCivil(y, 3, 1) - DaysFromCivil(y, 2, 1) == if IsLeapYear(y) then 29 else 28
  {
    MarchFirst(y);
    FebruaryFirst(y);
    FebruaryDays(y, y / 400, y % 400, (y - 1) / 400, (y - 1) % 400);
  }

  /** The arithmetic of `FebruaryLength`, on the era and the year of the era of `y`
      and of the year before it. */
  lemma FebruaryDays(y: int, era: int, yoe: int, era0: int, yoe0: int)
    requires era == y / 400 && yoe == y % 400 && era0 == (y - 1) / 400 && yoe0 == (y - 1) % 400
    ensures (era * 146097 + yoe * 365 + yoe / 4 - yoe / 100 - 719468) -
            (era0 * 146097 + yoe0 * 365 + yoe0 / 4 - yoe0 / 100 + 337 - 719468)
            == if IsLeapYear(y) then 29 else 28
  {
    if yoe == 0 {
      assert era0 == era - 1 && yoe0 == 399;
      assert IsLeapYear(y) by {
        assert y % 4 == 0 && y % 400 == 0;
      }
    } else {
      assert era0 == era && yoe0 == yoe - 1;
      LeapWithinEra(y, yoe);
    }
  }

  lemma MarchFirst(y: int)
    ensures DaysFromCivil(y, 3, 1) == (y / 400) * 146097 + (y % 400) * 365 + (y % 400) / 4 - (y % 400) / 100 - 719468
  {
  }

  lemma FebruaryFirst(y: int)
    ensures DaysFromCivil(y, 2, 1) ==
      ((y - 1) / 400) * 146097 + ((y - 1) % 400) * 365 + ((y - 1) % 400) / 4 - ((y - 1) % 400) / 100 + 337 - 719468
  {
  }

  /** For a year that is not a multiple of 400, leap-ness is decided by its position
      `yoe` within the 400-year era, and so is the number of extra leap days. */
  lemma LeapWithinEra(y: int, yoe: int)
    requires yoe == y % 400 && 1 <= yoe < 400
    ensures (yoe / 4 - (yoe - 1) / 4) - (yoe / 100 - (yoe - 1) / 100) == if IsLeapYear(y) then 1 else 0
  {
    EraResidues(y, yoe);
    StepCounts(yoe);
  }

  lemma EraResidues(y: int, yoe: int)
    requires yoe == y % 400
    ensures y % 4 == yoe % 4 && y % 100 == yoe % 100
  {
    var era := y / 400;
    assert y == (era * 100) * 4 + yoe;
    assert y == (era * 4) * 100 + yoe;
  }

  lemma StepCounts(yoe: int)
    requires 1 <= yoe < 400
    ensures yoe / 4 - (yoe - 1) / 4 == if yoe % 4 == 0 then 1 else 0
    ensures yoe / 100 - (yoe - 1) / 100 == if yoe % 100 == 0 then 1 else 0
  {
  }

  /** `MakeDay(year, month, date)`: a month outside 0..11 rolls into the
      neighbouring years (month -1 is December of the year before). */
  function MakeDay(year: int, month: int, date: int): (day: int)
    ensures 0 <= month < 12 ==> day == DaysFromCivil(year, month + 1, date)
  {
    DaysWithinMonth(year + month / 12, month % 12 + 1, date);
    DaysFromCivil(year + month / 12, month % 12 + 1, 1) + date - 1
  }

  /** Twelve months more and one year less is the same day. */
  lemma MakeDayCarriesMonths(year: int, month: int, date: int)
    ensures MakeDay(year, month, date) == MakeDay(year + 1, month - 12, date)
  {
    assert (month - 12) / 12 == month / 12 - 1;
    assert (month - 12) % 12 == month % 12;
  }

  function MakeTime(hour: int, minute: int, second: int, ms: int): int {
    hour * MsPerHour + minute * MsPerMinute + second * 1000 + ms
  }

  function MakeDate(day: int, time: int): int {
    day * MsPerDay + time
  }

  predicate InTimeRange(t: int) {
    -MaxTime <= t <= MaxTime
  }

  /** `TimeClip(t)`: a time value beyond the range is NaN. */
  function TimeClip(t: int): (r: Option<int>)
    ensures r.Some? <==> InTimeRange(t)
    ensures r.Some? ==> r.value == t
  {
    if InTimeRange(t) then Some(t) else None
  }

  /** `Date.UTC(year, month, date, hours, minutes)` on whole numbers: a year from 0
      to 99 means 1900 to 1999. */
  function DateUtc(year: int, month: int, date: int, hours: int, minutes: int): Option<int>
  {
    var y := if 0 <= year <= 99 then 1900 + year else year;
    TimeClip(MakeDate(MakeDay(y, month, date), MakeTime(hours, minutes, 0, 0)))
  }

  /** Years 0 to 99 and 1900 to 1999 give the same time value. */
  lemma TwoDigitYears(year: int, month: int, date: int, hours: int, minutes: int)
    requires 0 <= year <= 99
    ensures DateUtc(year, month, date, hours, minutes) == DateUtc(1900 + year, month, date, hours, minutes)
  {
  }
}
