/**
 * Proleptic Gregorian calendar arithmetic on day numbers, day 0 being
 * 1970-01-01. It stands in for the JavaScript `Date` getters
 * `getFullYear`, `getMonth` and `getDate`, read in one fixed timezone (UTC).
 *
 * The conversion from a day number to a (year, month, day) triple walks a
 * 400-year cycle year by year and month by month; `DaysFromCivil` is its
 * inverse, which proves that no two day numbers share a date.
 */
module Calendar {

  /** Milliseconds in one calendar day. */
  const MsPerDay: int := 86_400_000
  /** Days in one 400-year Gregorian cycle ("era"). */
  const DaysPerEra: int := 146_097
  /** Days from 0000-01-01 to 1970-01-01. */
  const EpochOffset: int := 719_528

  /** A calendar date; `month` counts from 1 (JavaScript's `getMonth` counts from 0). */
  datatype CivilDate = CivilDate(year: int, month: int, day: int)

  /** The day number of an instant given in milliseconds since the epoch (floor division). */
  function DayOf(t: int): int
  {
    t / MsPerDay
  }

  /** The first millisecond of the day that contains `t`. */
  function StartOfDay(t: int): (r: int)
    ensures r <= t < r + MsPerDay
  {
    DayOf(t) * MsPerDay
  }

  predicate IsLeapYear(y: int)
  {
    y % 4 == 0 && (y % 100 != 0 || y % 400 == 0)
  }

  function DaysInYear(y: int): int
  {
    if IsLeapYear(y) then 366 else 365
  }

  function DaysInMonth(leap: bool, m: int): int
    requires 1 <= m <= 12
  {
    if m == 2 then (if leap then 29 else 28)
    else if m == 4 || m == 6 || m == 9 || m == 11 then 30
    else 31
  }

  /** Days from January 1 to the first of month `m`; `m == 13` gives the length of the year. */
  function DaysBeforeMonth(leap: bool, m: int): int
    requires 1 <= m <= 13
  {
    var common := [0, 31, 59, 90, 120, 151, 181, 212, 243, 273, 304, 334, 365][m - 1];
    if leap && m > 2 then common + 1 else common
  }

  lemma DaysBeforeMonthStep(leap: bool, m: int)
    requires 1 <= m <= 12
    ensures DaysBeforeMonth(leap, m + 1) == DaysBeforeMonth(leap, m) + DaysInMonth(leap, m)
  {
    if m == 1 {} else if m == 2 {} else if m == 3 {} else if m == 4 {}
    else if m == 5 {} else if m == 6 {} else if m == 7 {} else if m == 8 {}
    else if m == 9 {} else if m == 10 {} else if m == 11 {} else {}
  }

  /** Division with remainder by 4, 100 and 400 is unique. */
  lemma DivMod4(x: int, d: int, r: int)
    requires 0 <= r < 4 && x == 4 * d + r
    ensures x / 4 == d && x % 4 == r
  {
  }

  lemma DivMod100(x: int, d: int, r: int)
    requires 0 <= r < 100 && x == 100 * d + r
    ensures x / 100 == d && x % 100 == r
  {
  }

  lemma DivMod400(x: int, d: int, r: int)
    requires 0 <= r < 400 && x == 400 * d + r
    ensures x / 400 == d && x % 400 == r
  {
  }

  /** A multiple of 400 is a multiple of 100, and a multiple of 100 is a multiple of 4. */
  lemma DivisorsNest(j: int)
    ensures j % 400 == 0 ==> j % 100 == 0
    ensures j % 100 == 0 ==> j % 4 == 0
  {
    if j % 400 == 0 {
      DivMod100(j, 4 * (j / 400), 0);
    }
    if j % 100 == 0 {
      DivMod4(j, 25 * (j / 100), 0);
    }
  }

  /** `(j + n) / n - (j + n - 1) / n` counts whether `n` divides `j`, for n = 4, 100, 400. */
  lemma CeilingSteps(j: int)
    requires j >= 0
    ensures (j + 4) / 4 == (j + 3) / 4 + (if j % 4 == 0 then 1 else 0)
    ensures (j + 100) / 100 == (j + 99) / 100 + (if j % 100 == 0 then 1 else 0)
    ensures (j + 400) / 400 == (j + 399) / 400 + (if j % 400 == 0 then 1 else 0)
  {
    var q4, r4 := j / 4, j % 4;
    DivMod4(j + 4, q4 + 1, r4);
    if r4 == 0 { DivMod4(j + 3, q4, 3); } else { DivMod4(j + 3, q4 + 1, r4 - 1); }
    var q100, r100 := j / 100, j % 100;
    DivMod100(j + 100, q100 + 1, r100);
    if r100 == 0 { DivMod100(j + 99, q100, 99); } else { DivMod100(j + 99, q100 + 1, r100 - 1); }
    var q400, r400 := j / 400, j % 400;
    DivMod400(j + 400, q400 + 1, r400);
    if r400 == 0 { DivMod400(j + 399, q400, 399); } else { DivMod400(j + 399, q400 + 1, r400 - 1); }
  }

  /**
   * Days from the start of a 400-year cycle to January 1 of its `k`-th year:
   * 365 per year plus one for each leap year before year `k`.
   */
  function DaysBeforeYearOfEra(k: int): int
    requires 0 <= k <= 400
  {
    365 * k + (k + 3) / 4 - (k + 99) / 100 + (k + 399) / 400
  }

  /** Each year of the cycle adds its own length. */
  lemma DaysBeforeYearOfEraStep(k: int)
    requires 0 <= k < 400
    ensures DaysBeforeYearOfEra(k + 1) == DaysBeforeYearOfEra(k) + DaysInYear(k)
  {
    CeilingSteps(k);
    DivisorsNest(k);
  }

  /** Leap years repeat with a period of 400 years. */
  lemma LeapYearPeriodic(era: int, k: int)
    requires 0 <= k < 400
    ensures IsLeapYear(400 * era + k) == IsLeapYear(k)
  {
    var y := 400 * era + k;
    DivMod4(y, 100 * era + k / 4, k % 4);
    DivMod100(y, 4 * era + k / 100, k % 100);
    DivMod400(y, era, k);
  }

  /** The year of a 400-year cycle that contains the cycle's `doe`-th day, searching from year `k`. */
  function YearOfEraFrom(doe: int, k: int): (r: int)
    requires 0 <= k <= 399 && DaysBeforeYearOfEra(k) <= doe < DaysPerEra
    ensures k <= r <= 399 && DaysBeforeYearOfEra(r) <= doe < DaysBeforeYearOfEra(r + 1)
    decreases 399 - k
  {
    if k == 399 || doe < DaysBeforeYearOfEra(k + 1) then k else YearOfEraFrom(doe, k + 1)
  }

  /** The month that contains the `doy`-th day of a year, searching from month `m`. */
  function MonthFrom(leap: bool, doy: int, m: int): (r: int)
    requires 1 <= m <= 12 && DaysBeforeMonth(leap, m) <= doy < DaysBeforeMonth(leap, 13)
    ensures m <= r <= 12 && DaysBeforeMonth(leap, r) <= doy < DaysBeforeMonth(leap, r + 1)
    decreases 12 - m
  {
    if m == 12 || doy < DaysBeforeMonth(leap, m + 1) then m else MonthFrom(leap, doy, m + 1)
  }

  /** The year of a 400-year cycle that contains the cycle's `doe`-th day. */
  function YearOfEra(doe: int): (k: int)
    requires 0 <= doe < DaysPerEra
    ensures 0 <= k <= 399
    ensures DaysBeforeYearOfEra(k) <= doe < DaysBeforeYearOfEra(k) + DaysInYear(k)
  {
    var k := YearOfEraFrom(doe, 0);
    DaysBeforeYearOfEraStep(k);
    k
  }

  /** The month that contains the `doy`-th day (from 0) of a year. */
  function MonthOfYear(leap: bool, doy: int): (m: int)
    requires 0 <= doy < DaysBeforeMonth(leap, 13)
    ensures 1 <= m <= 12
    ensures DaysBeforeMonth(leap, m) <= doy < DaysBeforeMonth(leap, m) + DaysInMonth(leap, m)
  {
    var m := MonthFrom(leap, doy, 1);
    DaysBeforeMonthStep(leap, m);
    m
  }

  /** The day number of a date in year `k` of the `era`-th 400-year cycle. */
  lemma DaysFromEraDate(era: int, k: int, month: int, day: int)
    requires 0 <= k < 400 && 1 <= month <= 12
    ensures DaysFromCivil(CivilDate(400 * era + k, month, day))
         == 146_097 * era + DaysBeforeYearOfEra(k) + DaysBeforeMonth(IsLeapYear(k), month) + day - 1 - EpochOffset
  {
    DivMod400(400 * era + k, era, k);
    LeapYearPeriodic(era, k);
  }

  /**
   * The calendar date of the `doe`-th day of the `era`-th 400-year cycle
   * (era 0 starts on 0000-01-01); `DaysFromCivil` maps it back to that day.
   */
  function CivilFromEraDay(era: int, doe: int): (c: CivilDate)
    requires 0 <= doe < DaysPerEra
    ensures 1 <= c.month <= 12
    ensures 1 <= c.day <= DaysInMonth(IsLeapYear(c.year), c.month)
    ensures DaysFromCivil(c) == 146_097 * era + doe - EpochOffset
  {
    var k := YearOfEra(doe);
    var leap := IsLeapYear(k);
    assert DaysBeforeMonth(leap, 13) == DaysInYear(k);
    var month := MonthOfYear(leap, doe - DaysBeforeYearOfEra(k));
    EraDate(era, doe, k, month)
  }

  /**
   * The date in month `month` of year `k` of the `era`-th cycle that holds
   * the `doe`-th day of the cycle, given that the year and the month were
   * located correctly.
   */
  function EraDate(era: int, doe: int, k: int, month: int): (c: CivilDate)
    requires 0 <= k <= 399 && DaysBeforeYearOfEra(k) <= doe
    requires 1 <= month <= 12
    requires DaysBeforeMonth(IsLeapYear(k), month) <= doe - DaysBeforeYearOfEra(k)
      < DaysBeforeMonth(IsLeapYear(k), month) + DaysInMonth(IsLeapYear(k), month)
    ensures 1 <= c.month <= 12
    ensures 1 <= c.day <= DaysInMonth(IsLeapYear(c.year), c.month)
    ensures DaysFromCivil(c) == 146_097 * era + doe - EpochOffset
  {
    var day := doe - DaysBeforeYearOfEra(k) - DaysBeforeMonth(IsLeapYear(k), month) + 1;
    LeapYearPeriodic(era, k);
    DaysFromEraDate(era, k, month, day);
    CivilDate(400 * era + k, month, day)
  }

  /**
   * The calendar date of day number `z`; converting it back with
   * `DaysFromCivil` gives `z` again, so no two day numbers share a date.
   */
  function CivilFromDays(z: int): (c: CivilDate)
    ensures 1 <= c.month <= 12
    ensures 1 <= c.day <= DaysInMonth(IsLeapYear(c.year), c.month)
    ensures DaysFromCivil(c) == z
  {
    var shifted := z + EpochOffset;
    CivilFromEraDay(shifted / 146_097, shifted % 146_097)
  }

  /** The day number of a calendar date. */
  function DaysFromCivil(c: CivilDate): int
    requires 1 <= c.month <= 12
  {
    var era := c.year / 400;
    var k := c.year % 400;
    146_097 * era + DaysBeforeYearOfEra(k)
      + DaysBeforeMonth(IsLeapYear(c.year), c.month) + c.day - 1 - EpochOffset
  }

  /** The calendar date of an instant, as `getFullYear`/`getMonth`/`getDate` report it. */
  function DateOf(t: int): CivilDate
  {
    CivilFromDays(DayOf(t))
  }

  /** Two instants have the same date exactly when they have the same day number. */
  lemma {:induction false} DateOfInjective(a: int, b: int)
    ensures DateOf(a) == DateOf(b) <==> DayOf(a) == DayOf(b)
  {
  }

  /** Instants `a` and `b` lie in the same millisecond range [start of day, end of day]. */
  lemma SameDayRange(a: int, b: int)
    ensures StartOfDay(a) <= b <= StartOfDay(a) + MsPerDay - 1 <==> DayOf(a) == DayOf(b)
  {
    if DayOf(a) < DayOf(b) {
      assert StartOfDay(a) + MsPerDay <= StartOfDay(b);
    } else if DayOf(a) > DayOf(b) {
      assert StartOfDay(b) + MsPerDay <= StartOfDay(a);
    }
  }
}
