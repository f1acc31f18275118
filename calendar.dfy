/**
 * Proleptic Gregorian calendar arithmetic on unbounded integers: the day
 * numbers that JavaScript's Date uses internally (days since 1970-01-01),
 * and their inverse.
 */
module Calendar {
  const MS_PER_DAY: int := 86400000
  /** Days from 0000-01-01 to 1970-01-01. */
  const EPOCH_DAYS: int := 719528
  /** Days in one 400-year Gregorian cycle. */
  const DAYS_PER_ERA: int := 146097

  datatype Date = Date(year: int, month: int, day: int)

  predicate IsLeapYear(y: int) {
    y % 4 == 0 && (y % 100 != 0 || y % 400 == 0)
  }

  function DaysInYear(y: int): int {
    if IsLeapYear(y) then 366 else 365
  }

  function DaysInMonth(y: int, m: int): int
    requires 1 <= m <= 12
  {
    if m == 2 then (if IsLeapYear(y) then 29 else 28)
    else if m == 4 || m == 6 || m == 9 || m == 11 then 30
    else 31
  }

  predicate IsValid(d: Date) {
    1 <= d.month <= 12 && 1 <= d.day <= DaysInMonth(d.year, d.month)
  }

  /** Days of a common year that come before the first of month m (m == 13: the whole year). */
  function CommonMonthStart(m: int): int {
    if m <= 1 then 0 else if m == 2 then 31 else if m == 3 then 59 else if m == 4 then 90
    else if m == 5 then 120 else if m == 6 then 151 else if m == 7 then 181 else if m == 8 then 212
    else if m == 9 then 243 else if m == 10 then 273 else if m == 11 then 304 else if m == 12 then 334
    else 365
  }

  /** Days of year y that come before the first of month m (m == 13: the whole year). */
  function DaysBeforeMonth(y: int, m: int): int
    requires 1 <= m <= 13
  {
    CommonMonthStart(m) + (if m > 2 && IsLeapYear(y) then 1 else 0)
  }

  /** Days from 0000-01-01 to the first of January of year y. */
  function DaysBeforeYear(y: int): int {
    365 * y + (y + 3) / 4 - (y + 99) / 100 + (y + 399) / 400
  }

  /** Days from 1970-01-01 to y-m-d; d may lie outside the month (it then counts on linearly). */
  function DayNumber(y: int, m: int, d: int): int
    requires 1 <= m <= 12
  {
    DaysBeforeYear(y) + DaysBeforeMonth(y, m) + d - 1 - EPOCH_DAYS
  }

  function DayNumberOf(d: Date): int
    requires 1 <= d.month <= 12
  {
    DayNumber(d.year, d.month, d.day)
  }

  lemma DaysBeforeMonthStep(y: int, m: int)
    requires 1 <= m <= 12
    ensures DaysBeforeMonth(y, m + 1) == DaysBeforeMonth(y, m) + DaysInMonth(y, m)
    ensures DaysBeforeMonth(y, 13) == DaysInYear(y)
  {
  }

  lemma DaysBeforeYearStep(y: int)
    ensures DaysBeforeYear(y + 1) == DaysBeforeYear(y) + DaysInYear(y)
  {
    CeilStep(y, 4);
    CeilStep(y, 100);
    CeilStep(y, 400);
    CenturiesDivide(y);
  }

  /** A multiple of 400 is a multiple of 100, and a multiple of 100 a multiple of 4. */
  lemma CenturiesDivide(y: int)
    ensures y % 400 == 0 ==> y % 100 == 0
    ensures y % 100 == 0 ==> y % 4 == 0
  {
    if y % 400 == 0 {
      DivUnique(y, 100, 4 * (y / 400), 0);
    }
    if y % 100 == 0 {
      DivUnique(y, 4, 25 * (y / 100), 0);
    }
  }

  /** Rounding up a quotient moves by one exactly when the dividend leaves a multiple of d. */
  lemma CeilStep(y: int, d: int)
    requires d > 1
    ensures (y + d) / d == (y + d - 1) / d + (if y % d == 0 then 1 else 0)
  {
    var q, r := y / d, y % d;
    DivAddMultiple(d, 1, y);
    if r == 0 {
      DivUnique(y + d - 1, d, q, d - 1);
    } else {
      DivUnique(y + d - 1, d, q + 1, r - 1);
    }
  }

  /** Euclidean division is determined by its quotient and remainder. */
  lemma DivUnique(x: int, d: int, q: int, r: int)
    requires d > 0 && 0 <= r < d && x == d * q + r
    ensures x / d == q && x % d == r
  {
    var k := x / d - q;
    assert d * k == r - x % d;
    if k >= 1 {
      MulAtLeast(d, k);
    } else if k <= -1 {
      MulAtLeast(d, -k);
    }
  }

  lemma MulAtLeast(d: int, k: int)
    requires d > 0 && k >= 1
    ensures d * k >= d
  {
  }

  lemma DivAddMultiple(d: int, q: int, a: int)
    requires d > 0
    ensures (d * q + a) / d == q + a / d && (d * q + a) % d == a % d
  {
    DivUnique(d * q + a, d, q + a / d, a % d);
  }

  lemma DaysBeforeYearEra(e: int, k: int)
    ensures DaysBeforeYear(400 * e + k) == 146097 * e + DaysBeforeYear(k)
    ensures IsLeapYear(400 * e + k) == IsLeapYear(k)
  {
    DivAddMultiple(4, 100 * e, k + 3);
    DivAddMultiple(100, 4 * e, k + 99);
    DivAddMultiple(400, e, k + 399);
    DivAddMultiple(4, 100 * e, k);
    DivAddMultiple(100, 4 * e, k);
    DivAddMultiple(400, e, k);
  }

  lemma {:induction false} DaysBeforeYearMonotone(a: int, b: int)
    requires a < b
    ensures DaysBeforeYear(a) + DaysInYear(a) <= DaysBeforeYear(b)
    decreases b - a
  {
    DaysBeforeYearStep(a);
    if a + 1 < b {
      DaysBeforeYearMonotone(a + 1, b);
    }
  }

  /** The year k of a 400-year cycle (k0 <= k < 400) whose days contain offset r. */
  function YearOfEra(r: int, k0: int): (k: int)
    requires 0 <= k0 < 400
    requires DaysBeforeYear(k0) <= r < DAYS_PER_ERA
    ensures k0 <= k < 400
    ensures DaysBeforeYear(k) <= r < DaysBeforeYear(k) + DaysInYear(k)
    decreases 400 - k0
  {
    DaysBeforeYearStep(k0);
    assert DaysBeforeYear(400) == DAYS_PER_ERA;
    if r < DaysBeforeYear(k0) + DaysInYear(k0) then k0
    else YearOfEra(r, k0 + 1)
  }

  /** The month m (m0 <= m <= 12) of year y whose days contain day-of-year r. */
  function MonthOfYear(y: int, r: int, m0: int): (m: int)
    requires 1 <= m0 <= 12
    requires DaysBeforeMonth(y, m0) <= r < DaysInYear(y)
    ensures m0 <= m <= 12
    ensures DaysBeforeMonth(y, m) <= r < DaysBeforeMonth(y, m) + DaysInMonth(y, m)
    decreases 12 - m0
  {
    DaysBeforeMonthStep(y, m0);
    if r < DaysBeforeMonth(y, m0) + DaysInMonth(y, m0) then m0
    else MonthOfYear(y, r, m0 + 1)
  }

  lemma EraYearContains(z: int, era: int, r: int, k: int, y: int)
    requires z == 146097 * era + r && y == 400 * era + k
    requires DaysBeforeYear(k) <= r < DaysBeforeYear(k) + DaysInYear(k)
    ensures DaysBeforeYear(y) <= z < DaysBeforeYear(y) + DaysInYear(y)
  {
    DaysBeforeYearEra(era, k);
  }

  /** The year whose days contain day z counted from 0000-01-01: its 400-year cycle, then the year within it. */
  lemma YearContaining(z: int) returns (y: int)
    ensures DaysBeforeYear(y) <= z < DaysBeforeYear(y) + DaysInYear(y)
  {
    var era := z / 146097;
    var r := z % 146097;
    assert DaysBeforeYear(0) == 0;
    var k := YearOfEra(r, 0);
    y := 400 * era + k;
    EraYearContains(z, era, r, k, y);
  }

  /** The calendar date of day number n: the inverse of DayNumber. */
  function FromDayNumber(n: int): (d: Date)
    ensures IsValid(d)
    ensures DayNumberOf(d) == n
  {
    DateOfDayNumber(n);
    DayNumberUnique();
    var d :| IsValid(d) && DayNumberOf(d) == n;
    d
  }

  /** Some valid date has day number n: the year and month that contain it. */
  lemma DateOfDayNumber(n: int)
    ensures exists d :: IsValid(d) && DayNumberOf(d) == n
  {
    var z := n + EPOCH_DAYS;
    var y := YearContaining(z);
    var ry := z - DaysBeforeYear(y);
    DaysBeforeMonthStep(y, 12);
    var m := MonthOfYear(y, ry, 1);
    var d := Date(y, m, ry - DaysBeforeMonth(y, m) + 1);
    assert IsValid(d) && DayNumberOf(d) == n;
  }

  lemma DayNumberUnique()
    ensures forall a: Date, b: Date {:trigger DayNumberOf(a), DayNumberOf(b)} ::
      IsValid(a) && IsValid(b) && DayNumberOf(a) == DayNumberOf(b) ==> a == b
  {
    forall a: Date, b: Date | IsValid(a) && IsValid(b) && DayNumberOf(a) == DayNumberOf(b)
      ensures a == b
    {
      DayNumberInjective(a, b);
    }
  }

  /** A valid date lies within its own year's span of day numbers. */
  lemma DayNumberWithinYear(d: Date)
    requires IsValid(d)
    ensures DaysBeforeYear(d.year) <= DayNumberOf(d) + EPOCH_DAYS < DaysBeforeYear(d.year) + DaysInYear(d.year)
  {
    DaysBeforeMonthStep(d.year, d.month);
    MonthStartsMonotone(d.year, d.month + 1, 13);
  }

  lemma MonthStartsMonotone(y: int, a: int, b: int)
    requires 1 <= a <= b <= 13
    ensures DaysBeforeMonth(y, a) <= DaysBeforeMonth(y, b)
  {
  }

  /** Distinct valid dates have distinct day numbers. */
  lemma DayNumberInjective(a: Date, b: Date)
    requires IsValid(a) && IsValid(b)
    requires DayNumberOf(a) == DayNumberOf(b)
    ensures a == b
  {
    DayNumberWithinYear(a);
    DayNumberWithinYear(b);
    if a.year < b.year {
      DaysBeforeYearMonotone(a.year, b.year);
    } else if b.year < a.year {
      DaysBeforeYearMonotone(b.year, a.year);
    }
    assert a.year == b.year;
    var y := a.year;
    DaysBeforeMonthStep(y, a.month);
    DaysBeforeMonthStep(y, b.month);
    if a.month < b.month {
      MonthStartsMonotone(y, a.month + 1, b.month);
    } else if b.month < a.month {
      MonthStartsMonotone(y, b.month + 1, a.month);
    }
  }

  /** FromDayNumber and DayNumber are mutually inverse on valid dates. */
  lemma FromDayNumberOfValid(d: Date)
    requires IsValid(d)
    ensures FromDayNumber(DayNumberOf(d)) == d
  {
    DayNumberInjective(FromDayNumber(DayNumberOf(d)), d);
  }

  /** The calendar date k days after d. */
  function DaysAfter(d: Date, k: int): Date
    requires IsValid(d)
  {
    FromDayNumber(DayNumberOf(d) + k)
  }

  /** The day after the last day of a month is the first of the next month, rolling over the year. */
  lemma NextDayRollsOver(y: int, m: int)
    requires 1 <= m <= 12
    ensures DaysAfter(Date(y, m, DaysInMonth(y, m)), 1)
         == if m == 12 then Date(y + 1, 1, 1) else Date(y, m + 1, 1)
  {
    var last := Date(y, m, DaysInMonth(y, m));
    var next := if m == 12 then Date(y + 1, 1, 1) else Date(y, m + 1, 1);
    DaysBeforeMonthStep(y, m);
    if m == 12 {
      DaysBeforeYearStep(y);
    }
    assert DayNumberOf(next) == DayNumberOf(last) + 1;
    DaysAfterOfNumber(last, 1, next);
  }

  /** The date k days after d is the valid date whose day number is k more than d's. */
  lemma DaysAfterOfNumber(d: Date, k: int, e: Date)
    requires IsValid(d) && IsValid(e) && DayNumberOf(e) == DayNumberOf(d) + k
    ensures DaysAfter(d, k) == e
  {
    FromDayNumberOfValid(e);
  }
}
