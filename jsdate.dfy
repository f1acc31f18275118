/**
 * The parts of JavaScript's Date that the deadline parser relies on, for a
 * host whose local time is UTC plus a fixed offset `tz` (milliseconds, no
 * daylight-saving time). Time values are unbounded integers of milliseconds
 * since 1970-01-01T00:00:00Z, or NaN once TimeClip rejects them.
 */
module JsDate {
  import opened Calendar

  /** A JavaScript number holding a time value: an integral millisecond count, or NaN. */
  datatype TimeValue = Time(ms: int) | NaN

  /** Largest magnitude of a valid time value: 100,000,000 days. */
  const MAX_TIME_MS: int := 8640000000000000

  function TimeClip(t: int): TimeValue {
    if -MAX_TIME_MS <= t <= MAX_TIME_MS then Time(t) else NaN
  }

  /** Number subtraction, NaN-propagating. */
  function Minus(v: TimeValue, k: int): TimeValue {
    match v
    case NaN => NaN
    case Time(t) => Time(t - k)
  }

  /** Day(t): the day number containing millisecond t (floor division). */
  function Day(t: int): int {
    t / 86400000
  }

  function TimeWithinDay(t: int): int {
    t % 86400000
  }

  function MakeTime(h: int, m: int, s: int, ms: int): int {
    h * 3600000 + m * 60000 + s * 1000 + ms
  }

  /** MakeDay with a zero-based month that may overflow in either direction, and any day of month. */
  function MakeDay(year: int, month0: int, date: int): int {
    DayNumber(year + month0 / 12, month0 % 12 + 1, 1) + date - 1
  }

  function MakeDate(day: int, time: int): int {
    day * 86400000 + time
  }

  /** The local day number the clock shows at instant t. */
  function LocalDay(t: int, tz: int): int {
    Day(t + tz)
  }

  /** The instant at which the local clock shows h:m:s.ms on local day number n. */
  function WallClock(n: int, h: int, m: int, s: int, ms: int, tz: int): int {
    MakeDate(n, MakeTime(h, m, s, ms)) - tz
  }

  /** The instant at which the local clock shows date d, h:m:s.ms: the conversion local -> epoch. */
  function LocalToEpoch(d: Date, h: int, m: int, s: int, ms: int, tz: int): int
    requires 1 <= d.month <= 12
  {
    DayNumberOf(d) * 86400000 + MakeTime(h, m, s, ms) - tz
  }

  /** The calendar date the local clock shows at instant t. */
  function LocalDate(t: int, tz: int): (d: Date)
    ensures IsValid(d)
  {
    FromDayNumber(Day(t + tz))
  }

  /** Date.prototype.setDate moving the local day of month on by k, keeping year, month and local time of day. */
  function AddLocalDays(v: TimeValue, k: int, tz: int): TimeValue {
    match v
    case NaN => NaN
    case Time(t) =>
      var local := t + tz;
      var d := LocalDate(t, tz);
      TimeClip(MakeDate(MakeDay(d.year, d.month - 1, d.day + k), TimeWithinDay(local)) - tz)
  }

  /** Date.prototype.setHours: replace the local time of day, on the same local day; h may exceed 23. */
  function SetHours(v: TimeValue, h: int, m: int, s: int, ms: int, tz: int): TimeValue {
    match v
    case NaN => NaN
    case Time(t) => TimeClip(MakeDate(Day(t + tz), MakeTime(h, m, s, ms)) - tz)
  }

  /** The Date constructor's reading of a year argument: 0..99 mean 1900..1999. */
  function FullYear(y: int): int {
    if 0 <= y <= 99 then 1900 + y else y
  }

  /** The Date constructor given local calendar fields (month0 counts from 0). */
  function NewLocalDate(y: int, month0: int, d: int, h: int, m: int, s: int, ms: int, tz: int): TimeValue {
    TimeClip(MakeDate(MakeDay(FullYear(y), month0, d), MakeTime(h, m, s, ms)) - tz)
  }

  /** setDate(getDate() + k) rolls over month and year ends: it moves the instant by exactly k days. */
  lemma AddLocalDaysShifts(t: int, k: int, tz: int)
    ensures AddLocalDays(Time(t), k, tz) == TimeClip(t + k * 86400000)
  {
    var d := LocalDate(t, tz);
    var n := Day(t + tz);
    assert DayNumberOf(d) == n;
    assert (d.month - 1) / 12 == 0 && (d.month - 1) % 12 + 1 == d.month;
    assert MakeDay(d.year, d.month - 1, d.day + k) == n + k;
    assert (n + k) * 86400000 + TimeWithinDay(t + tz) == t + tz + k * 86400000;
  }

  /** Month -1 (JavaScript month 0 of a one-based input) is December of the previous year. */
  lemma MonthBeforeJanuary(y: int, date: int)
    ensures MakeDay(y, -1, date) == DayNumber(y - 1, 12, date)
  {
  }

  /** Day 0 of a month is the last day of the month before it. */
  lemma DayZeroIsPreviousMonthEnd(y: int, m: int)
    requires 1 <= m <= 12
    ensures MakeDay(y, m - 1, 0)
         == if m == 1 then DayNumber(y - 1, 12, 31) else DayNumber(y, m - 1, DaysInMonth(y, m - 1))
  {
    if m == 1 {
      DaysBeforeYearStep(y - 1);
    } else {
      DaysBeforeMonthStep(y, m - 1);
    }
  }
  /** Moving an instant by whole days moves its day number by the same count. */
  lemma DayOfShift(x: int, k: int)
    ensures Day(x + k * 86400000) == Day(x) + k
    ensures TimeWithinDay(x + k * 86400000) == TimeWithinDay(x)
  {
    var q, r := x / 86400000, x % 86400000;
    assert x + k * 86400000 == (q + k) * 86400000 + r;
  }

  /** The instant of local date "k days after t's local date" at a given clock, as day arithmetic. */
  lemma LocalToEpochAfter(t: int, k: int, h: int, m: int, s: int, ms: int, tz: int)
    ensures LocalToEpoch(DaysAfter(LocalDate(t, tz), k), h, m, s, ms, tz)
         == (Day(t + tz) + k) * 86400000 + MakeTime(h, m, s, ms) - tz
  {
    assert DayNumberOf(DaysAfter(LocalDate(t, tz), k)) == Day(t + tz) + k;
  }

  /** setHours on a valid time sets the local clock on the same local calendar date. */
  lemma SetHoursOnLocalDay(t: int, h: int, m: int, s: int, ms: int, tz: int)
    ensures SetHours(Time(t), h, m, s, ms, tz) == TimeClip(LocalToEpoch(LocalDate(t, tz), h, m, s, ms, tz))
  {
  }

  /** Reading the local clock back: the instant of local date d at h:m:s.ms lies on local date d, at that time of day. */
  lemma LocalToEpochReadBack(d: Date, h: int, m: int, s: int, ms: int, tz: int)
    requires IsValid(d)
    requires 0 <= MakeTime(h, m, s, ms) < 86400000
    ensures LocalDate(LocalToEpoch(d, h, m, s, ms, tz), tz) == d
    ensures TimeWithinDay(LocalToEpoch(d, h, m, s, ms, tz) + tz) == MakeTime(h, m, s, ms)
  {
    var local := LocalToEpoch(d, h, m, s, ms, tz) + tz;
    assert local == DayNumberOf(d) * 86400000 + MakeTime(h, m, s, ms);
    assert Day(local) == DayNumberOf(d) && TimeWithinDay(local) == MakeTime(h, m, s, ms);
    FromDayNumberOfValid(d);
  }
}
