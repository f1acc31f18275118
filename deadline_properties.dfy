/**
 * What parseHumanTime and formatTime do, stated for all inputs: each
 * keyword and pattern of utils/time.js yields the instant it names (or the
 * outcome the code gives instead), and formatTime reads a Taipei wall clock
 * back from an instant.
 */
module DeadlineProperties {
  import opened Wrappers
  import opened Calendar
  import opened JsDate
  import opened JsText
  import opened HumanTime

  /** A host clock at least ten days inside the Date range. */
  predicate NowInRange(now: int) {
    -MAX_TIME_MS + 10 * 86400000 <= now <= MAX_TIME_MS - 10 * 86400000
  }

  /** A host offset from UTC of at most one day either way. */
  predicate HostOffset(tz: int) {
    -86400000 <= tz <= 86400000
  }

  lemma CanonicalEmpty()
    ensures Canonical([]) == []
  {
    assert Trim([]) == [];
  }

  lemma ShortNumberValue(z: string)
    requires IsShortNumber(z)
    ensures 0 <= DigitsValue(z, 10) <= 99
  {
    DigitsValueBound(z);
    assert Pow10(2) == 100;
  }

  /** The local clock k (0..2) days after `now`, at any time below five days, is a valid time value. */
  lemma LocalClockInRange(now: int, tz: int, k: int, h: int, mi: int, s: int, ms: int)
    requires NowInRange(now) && HostOffset(tz) && 0 <= k <= 2
    requires 0 <= MakeTime(h, mi, s, ms) <= 5 * 86400000
    ensures -MAX_TIME_MS <= WallClock(LocalDay(now, tz) + k, h, mi, s, ms, tz) <= MAX_TIME_MS
  {
    var x := now + tz;
    assert Day(x) * 86400000 <= x < Day(x) * 86400000 + 86400000;
  }

  /** setHours on instant now + k days sets the local clock on the local day k days after today. */
  lemma SetHoursLaterDay(now: int, tz: int, k: int, h: int, mi: int, s: int, ms: int)
    requires NowInRange(now) && HostOffset(tz) && 0 <= k <= 2
    requires 0 <= MakeTime(h, mi, s, ms) <= 5 * 86400000
    ensures SetHours(Time(now + k * 86400000), h, mi, s, ms, tz) == Time(WallClock(LocalDay(now, tz) + k, h, mi, s, ms, tz))
  {
    assert Day(now + k * 86400000 + tz) == Day(now + tz) + k by {
      DayOfShift(now + tz, k);
      assert now + k * 86400000 + tz == (now + tz) + k * 86400000;
    }
    LocalClockInRange(now, tz, k, h, mi, s, ms);
  }

  /** The end-of-day helper on instant now + k days: the last millisecond of that local day. */
  lemma EndOfLaterDay(now: int, tz: int, k: int)
    requires NowInRange(now) && HostOffset(tz) && 0 <= k <= 2
    ensures EndOfDay(Time(now + k * 86400000), tz) == Time(WallClock(LocalDay(now, tz) + k, 23, 59, 59, 999, tz))
  {
    SetHoursLaterDay(now, tz, k, 23, 59, 59, 999);
  }

  /** A non-empty input is parsed through its canonical text. */
  lemma ParseOfCanonical(s: string, text: string, now: int, tz: int)
    requires Canonical(s) == text && text != []
    ensures ParseHumanTime(Some(s), now, tz) == ParseText(text, now, tz)
  {
    CanonicalEmpty();
  }

  /** The branch `明天` takes, utils/time.js:39-43. */
  lemma TomorrowBranch(now: int, tz: int)
    ensures ParseText("明天", now, tz) == Deadline(Minus(EndOfDay(AddLocalDays(TimeClip(now), 1, tz), tz), TAIPEI_OFFSET_MS))
  {
  }

  /** The branch `后天` takes, utils/time.js:44-48. */
  lemma DayAfterTomorrowBranch(now: int, tz: int)
    ensures ParseText("后天", now, tz) == Deadline(Minus(EndOfDay(AddLocalDays(TimeClip(now), 2, tz), tz), TAIPEI_OFFSET_MS))
  {
  }

  /** Moving the day of month on by k, then the end-of-day helper: the last millisecond of the local day k days on. */
  lemma LaterDayEnd(k: int, now: int, tz: int)
    requires 0 <= k <= 2 && NowInRange(now) && HostOffset(tz)
    ensures EndOfDay(AddLocalDays(TimeClip(now), k, tz), tz) == Time(WallClock(LocalDay(now, tz) + k, 23, 59, 59, 999, tz))
  {
    AddLocalDaysShifts(now, k, tz);
    EndOfLaterDay(now, tz, k);
  }

  /** `明天` is the last millisecond of tomorrow's local day, less the Taipei offset. */
  lemma ParseTomorrow(s: string, now: int, tz: int)
    requires Canonical(s) == "明天" && NowInRange(now) && HostOffset(tz)
    ensures ParseHumanTime(Some(s), now, tz)
         == Deadline(Time(WallClock(LocalDay(now, tz) + 1, 23, 59, 59, 999, tz) - TAIPEI_OFFSET_MS))
  {
    ParseOfCanonical(s, "明天", now, tz);
    TomorrowText(now, tz);
  }

  lemma TomorrowText(now: int, tz: int)
    requires NowInRange(now) && HostOffset(tz)
    ensures ParseText("明天", now, tz) == Deadline(Time(WallClock(LocalDay(now, tz) + 1, 23, 59, 59, 999, tz) - TAIPEI_OFFSET_MS))
  {
    TomorrowBranch(now, tz);
    LaterDayDeadline(1, now, tz);
  }

  /** The deadline both later-day branches build: the end of the local day k days on, less the Taipei offset. */
  lemma LaterDayDeadline(k: int, now: int, tz: int)
    requires 0 <= k <= 2 && NowInRange(now) && HostOffset(tz)
    ensures Deadline(Minus(EndOfDay(AddLocalDays(TimeClip(now), k, tz), tz), TAIPEI_OFFSET_MS))
         == Deadline(Time(WallClock(LocalDay(now, tz) + k, 23, 59, 59, 999, tz) - TAIPEI_OFFSET_MS))
  {
    LaterDayEnd(k, now, tz);
  }

  /** `后天` is the last millisecond of the local day two days on, less the Taipei offset. */
  lemma ParseDayAfterTomorrow(s: string, now: int, tz: int)
    requires Canonical(s) == "后天" && NowInRange(now) && HostOffset(tz)
    ensures ParseHumanTime(Some(s), now, tz)
         == Deadline(Time(WallClock(LocalDay(now, tz) + 2, 23, 59, 59, 999, tz) - TAIPEI_OFFSET_MS))
  {
    ParseOfCanonical(s, "后天", now, tz);
    DayAfterTomorrowText(now, tz);
  }

  lemma DayAfterTomorrowText(now: int, tz: int)
    requires NowInRange(now) && HostOffset(tz)
    ensures ParseText("后天", now, tz) == Deadline(Time(WallClock(LocalDay(now, tz) + 2, 23, 59, 59, 999, tz) - TAIPEI_OFFSET_MS))
  {
    DayAfterTomorrowBranch(now, tz);
    LaterDayDeadline(2, now, tz);
  }

  /** Every non-empty input whose canonical text is one of the five no-deadline words means no deadline (null). */
  lemma ParseNoDeadlineWord(s: string, now: int, tz: int)
    requires var text := Canonical(s);
      text == "无" || text == "没有" || text == "不用" || text == "none" || text == "null"
    ensures ParseHumanTime(Some(s), now, tz) == NoDeadline
  {
    if s == [] {
      CanonicalEmpty();
    } else {
      ParseOfCanonical(s, Canonical(s), now, tz);
    }
  }

  /** `今天` (after canonicalisation) is the last millisecond of today's local day, with no Taipei shift. */
  lemma ParseToday(s: string, now: int, tz: int)
    requires Canonical(s) == "今天" && NowInRange(now) && HostOffset(tz)
    ensures ParseHumanTime(Some(s), now, tz) == Deadline(Time(WallClock(LocalDay(now, tz), 23, 59, 59, 999, tz)))
  {
    ParseOfCanonical(s, "今天", now, tz);
    TodayText(now, tz);
  }

  lemma TodayText(now: int, tz: int)
    requires NowInRange(now) && HostOffset(tz)
    ensures ParseText("今天", now, tz) == Deadline(Time(WallClock(LocalDay(now, tz), 23, 59, 59, 999, tz)))
  {
    assert ParseText("今天", now, tz) == Deadline(EndOfDay(Time(now), tz));
    EndOfLaterDay(now, tz, 0);
  }

  /** The day and clock a clock match names, before the Taipei shift. */
  function ClockInstant(m: ClockMatch, hour: int, now: int, tz: int): int
    requires WellFormedClock(m)
  {
    WallClock(LocalDay(now, tz) + DayOffset(m.day), hour, MinuteOf(m), 0, 0, tz)
  }

  lemma ClockDateShift(m: ClockMatch, now: int, tz: int)
    requires NowInRange(now)
    ensures ClockDate(m, now, tz) == Time(now + DayOffset(m.day) * 86400000)
  {
    AddLocalDaysShifts(now, 1, tz);
  }

  lemma MinuteOfBound(m: ClockMatch)
    requires WellFormedClock(m)
    ensures 0 <= MinuteOf(m) <= 99
  {
    if m.minute.Some? {
      ShortNumberValue(m.minute.value.digits);
    }
  }

  lemma ClockAtValue(date: TimeValue, hour: int, minute: int, tz: int, t: int)
    requires SetHours(date, hour, minute, 0, 0, tz) == Time(t)
    ensures ClockAt(date, hour, minute, tz) == Deadline(Time(t - TAIPEI_OFFSET_MS))
  {
  }

  /** setHours on the clock pattern's day, for any hour up to 111. */
  lemma ClockAtInstant(m: ClockMatch, hour: int, now: int, tz: int)
    requires WellFormedClock(m) && 0 <= hour <= 111
    requires NowInRange(now) && HostOffset(tz)
    ensures ClockAt(ClockDate(m, now, tz), hour, MinuteOf(m), tz) == Deadline(Time(ClockInstant(m, hour, now, tz) - TAIPEI_OFFSET_MS))
  {
    var k := DayOffset(m.day);
    var minute := MinuteOf(m);
    MinuteOfBound(m);
    ClockDateShift(m, now, tz);
    SetHoursLaterDay(now, tz, k, hour, minute, 0, 0);
    ClockAtValue(ClockDate(m, now, tz), hour, minute, tz, ClockInstant(m, hour, now, tz));
  }

  lemma ClockTextParsed(m: ClockMatch, now: int, tz: int)
    requires WellFormedClock(m)
    ensures ParseText(ClockText(m), now, tz) == ClockDeadline(m, now, tz)
    ensures ParseTextCorrected(ClockText(m), now, tz) == ClockDeadlineCorrected(m, now, tz)
  {
    MatchClockComplete(m);
    ClockTextNotKeyword(ClockText(m));
  }

  /** A clock text is parsed by the clock branch. */
  lemma ParseClockText(s: string, m: ClockMatch, now: int, tz: int)
    requires WellFormedClock(m) && Canonical(s) == ClockText(m)
    ensures ParseHumanTime(Some(s), now, tz) == ClockDeadline(m, now, tz)
    ensures ParseHumanTimeCorrected(Some(s), now, tz) == ClockDeadlineCorrected(m, now, tz)
  {
    ParseOfCanonical(s, ClockText(m), now, tz);
    ClockTextParsed(m, now, tz);
  }

  /** A `今天`/`明天` clock text is that local date at the 24-hour clock the period selects, less the Taipei offset. */
  lemma ParseClock(s: string, m: ClockMatch, now: int, tz: int, hour: int)
    requires WellFormedClock(m) && Canonical(s) == ClockText(m) && m.day != Tonight
    requires NowInRange(now) && HostOffset(tz)
    requires hour == ClockHour(m.period, DigitsValue(m.hour, 10))
    ensures ParseHumanTime(Some(s), now, tz) == Deadline(Time(ClockInstant(m, hour, now, tz) - TAIPEI_OFFSET_MS))
  {
    var r := Deadline(Time(ClockInstant(m, hour, now, tz) - TAIPEI_OFFSET_MS));
    assert ClockDeadline(m, now, tz) == r by {
      assert 0 <= hour <= 111 by {
        ShortNumberValue(m.hour);
      }
      ClockAtInstant(m, hour, now, tz);
    }
    ParseClockText(s, m, now, tz);
    var p := ParseHumanTime(Some(s), now, tz);
    assert p == r;
    assert p.at == Time(ClockInstant(m, hour, now, tz) - TAIPEI_OFFSET_MS);
  }

  /** Every `今晚` clock text throws. */
  lemma ParseTonightThrows(s: string, m: ClockMatch, now: int, tz: int)
    requires WellFormedClock(m) && Canonical(s) == ClockText(m) && m.day == Tonight
    ensures ParseHumanTime(Some(s), now, tz) == Throws
  {
    ParseClockText(s, m, now, tz);
  }

  // ---------------------------------------------------------------- the absolute date pattern

  lemma NoDayWordBeforeDigit(s: string)
    requires |s| >= 2 && IsDigit(s[0])
    ensures DayWordOf(s[..2]).None?
  {
    var w := s[..2];
    assert w[0] == s[0];
    assert w != "今天" && w != "今晚" && w != "明天" by {
      assert "今天"[0] == '今' && "今晚"[0] == '今' && "明天"[0] == '明';
    }
  }

  lemma DateTextParsed(m: DateMatch, now: int, tz: int)
    requires WellFormedDate(m)
    ensures ParseText(DateText(m), now, tz) == DateDeadline(m, tz)
  {
    var t := DateText(m);
    assert t[0] == m.year[0] && IsDigit(t[0]) && |t| >= 7;
    assert !IsNoDeadlineWord(t) && t != "今天" && t != "明天" && t != "后天" by {
      assert "无"[0] == '无' && "没有"[0] == '没' && "不用"[0] == '不' && "none"[0] == 'n' && "null"[0] == 'n';
    }
    NoDayWordBeforeDigit(t);
    MatchDateComplete(m);
  }

  /** Day counts before year y, for years from 0 on: between 365 and 366 per year. */
  lemma DaysBeforeYearBounds(y: int)
    requires 0 <= y
    ensures 365 * y <= DaysBeforeYear(y) <= 366 * y
  {
  }

  /** Any date the pattern admits (a four-digit year, two-digit fields) lies well inside the Date range. */
  lemma AbsoluteInRange(y: int, month0: int, d: int, hh: int, mm: int, tz: int)
    requires 0 <= y <= 9999 && -1 <= month0 <= 98 && 0 <= d <= 99 && 0 <= hh <= 99 && 0 <= mm <= 99
    requires HostOffset(tz)
    ensures -MAX_TIME_MS + 10 * 86400000 <= MakeDate(MakeDay(FullYear(y), month0, d), MakeTime(hh, mm, 59, 999)) - tz <= MAX_TIME_MS - 10 * 86400000
  {
    var year := FullYear(y) + month0 / 12;
    assert 99 <= year <= 10007;
    DaysBeforeYearBounds(year);
    var day := MakeDay(FullYear(y), month0, d);
    assert -719528 <= day <= 366 * 10007 + 366 + 99;
  }

  function DateFields(m: DateMatch): (int, int, int) {
    (DigitsValue(m.year, 10), DigitsValue(m.month, 10), DigitsValue(m.day, 10))
  }

  lemma DateFieldBounds(m: DateMatch)
    requires WellFormedDate(m)
    ensures 0 <= DateFields(m).0 <= 9999 && 0 <= DateFields(m).1 <= 99 && 0 <= DateFields(m).2 <= 99
    ensures 0 <= HourOf(m) <= 99 && 0 <= MinuteOfDate(m) <= 99
  {
    DigitsValueBound(m.year);
    assert Pow10(4) == 10000;
    ShortNumberValue(m.month);
    ShortNumberValue(m.day);
    if m.time.Some? {
      ShortNumberValue(m.time.value.hour);
      ShortNumberValue(m.time.value.minute);
    }
  }

  /** The instant the date pattern stands for in the host's local time, at 59.999 seconds. */
  function AbsoluteInstant(m: DateMatch, tz: int): int {
    MakeDate(MakeDay(FullYear(DigitsValue(m.year, 10)), DigitsValue(m.month, 10) - 1, DigitsValue(m.day, 10)),
             MakeTime(HourOf(m), MinuteOfDate(m), 59, 999)) - tz
  }

  /** The Date constructor call of the date branch never gives NaN. */
  lemma DateDeadlineValue(m: DateMatch, tz: int)
    requires WellFormedDate(m) && HostOffset(tz)
    ensures DateDeadline(m, tz) == Deadline(Time(AbsoluteInstant(m, tz) - TAIPEI_OFFSET_MS))
  {
    DateFieldBounds(m);
    DateDeadlineOfFields(m, tz);
  }

  lemma DateDeadlineOfFields(m: DateMatch, tz: int)
    requires 0 <= DateFields(m).0 <= 9999 && 0 <= DateFields(m).1 <= 99 && 0 <= DateFields(m).2 <= 99
    requires 0 <= HourOf(m) <= 99 && 0 <= MinuteOfDate(m) <= 99 && HostOffset(tz)
    ensures DateDeadline(m, tz) == Deadline(Time(AbsoluteInstant(m, tz) - TAIPEI_OFFSET_MS))
  {
    NewLocalDateInRange(DigitsValue(m.year, 10), DigitsValue(m.month, 10) - 1, DigitsValue(m.day, 10), HourOf(m), MinuteOfDate(m), tz);
    DateDeadlineAt(m, tz, AbsoluteInstant(m, tz));
  }

  lemma DateDeadlineAt(m: DateMatch, tz: int, x: int)
    requires NewLocalDate(DigitsValue(m.year, 10), DigitsValue(m.month, 10) - 1, DigitsValue(m.day, 10), HourOf(m), MinuteOfDate(m), 59, 999, tz) == Time(x)
    ensures DateDeadline(m, tz) == Deadline(Time(x - TAIPEI_OFFSET_MS))
  {
  }

  lemma NewLocalDateInRange(y: int, month0: int, d: int, hh: int, mm: int, tz: int)
    requires 0 <= y <= 9999 && -1 <= month0 <= 98 && 0 <= d <= 99 && 0 <= hh <= 99 && 0 <= mm <= 99
    requires HostOffset(tz)
    ensures NewLocalDate(y, month0, d, hh, mm, 59, 999, tz) == Time(MakeDate(MakeDay(FullYear(y), month0, d), MakeTime(hh, mm, 59, 999)) - tz)
  {
    AbsoluteInRange(y, month0, d, hh, mm, tz);
  }

  /**
   * A date text is that local date and time (23:59 when no time is given,
   * always at 59.999 seconds), less the Taipei offset; it never yields null,
   * and out-of-range fields roll over as the Date constructor does.
   */
  lemma ParseAbsolute(s: string, m: DateMatch, now: int, tz: int)
    requires WellFormedDate(m) && Canonical(s) == DateText(m) && HostOffset(tz)
    ensures ParseHumanTime(Some(s), now, tz) == Deadline(Time(AbsoluteInstant(m, tz) - TAIPEI_OFFSET_MS))
  {
    var p := ParseHumanTime(Some(s), now, tz);
    assert p == DateDeadline(m, tz) by {
      ParseOfCanonical(s, DateText(m), now, tz);
      DateTextParsed(m, now, tz);
    }
    DateDeadlineValue(m, tz);
  }

  // ---------------------------------------------------------------- formatTime

  /** formatTime reads back the Taipei wall clock of any instant given as a Taipei wall clock. */
  lemma FormatShowsTaipeiClock(d: Date, h: int, mi: int, s: int, ms: int)
    requires IsValid(d) && 0 <= h < 24 && 0 <= mi < 60 && 0 <= s < 60 && 0 <= ms < 1000
    requires -MAX_TIME_MS <= LocalToEpoch(d, h, mi, s, ms, TAIPEI_OFFSET_MS) <= MAX_TIME_MS
    ensures FormatTime(Some(Time(LocalToEpoch(d, h, mi, s, ms, TAIPEI_OFFSET_MS)))) == Shown(d, h, mi)
  {
    var t := LocalToEpoch(d, h, mi, s, ms, TAIPEI_OFFSET_MS);
    LocalToEpochReadBack(d, h, mi, s, ms, TAIPEI_OFFSET_MS);
    var tod := TimeWithinDay(t + TAIPEI_OFFSET_MS);
    var rest := mi * 60000 + s * 1000 + ms;
    assert tod == h * 3600000 + rest && 0 <= rest < 3600000;
    assert tod / 3600000 == h && tod % 3600000 == rest;
    assert rest / 60000 == mi;
  }

  function TypedDate(m: DateMatch): Date {
    Date(FullYear(DateFields(m).0), DateFields(m).1, DateFields(m).2)
  }

  /** For a real calendar date, the UTC host's instant less the Taipei offset is that date on a Taipei clock. */
  lemma AbsoluteInstantOnUtcHost(m: DateMatch)
    requires WellFormedDate(m) && IsValid(TypedDate(m))
    ensures AbsoluteInstant(m, 0) - TAIPEI_OFFSET_MS == LocalToEpoch(TypedDate(m), HourOf(m), MinuteOfDate(m), 59, 999, TAIPEI_OFFSET_MS)
    ensures -MAX_TIME_MS <= AbsoluteInstant(m, 0) - TAIPEI_OFFSET_MS <= MAX_TIME_MS
  {
    var f := DateFields(m);
    DateFieldBounds(m);
    assert (f.1 - 1) / 12 == 0 && (f.1 - 1) % 12 + 1 == f.1;
    assert MakeDay(FullYear(f.0), f.1 - 1, f.2) == DayNumberOf(TypedDate(m));
    AbsoluteInRange(f.0, f.1 - 1, f.2, HourOf(m), MinuteOfDate(m), 0);
  }

  /** On a UTC host, a date text for a real calendar date parses to that date and time on a Taipei clock. */
  lemma ParseAbsoluteOnUtcHost(s: string, m: DateMatch, now: int)
    requires WellFormedDate(m) && Canonical(s) == DateText(m) && IsValid(TypedDate(m))
    ensures -MAX_TIME_MS <= LocalToEpoch(TypedDate(m), HourOf(m), MinuteOfDate(m), 59, 999, TAIPEI_OFFSET_MS) <= MAX_TIME_MS
    ensures ParseHumanTime(Some(s), now, 0) == Deadline(Time(LocalToEpoch(TypedDate(m), HourOf(m), MinuteOfDate(m), 59, 999, TAIPEI_OFFSET_MS)))
  {
    ParseAbsolute(s, m, now, 0);
    AbsoluteInstantOnUtcHost(m);
  }

  /**
   * On a host running on UTC, a date text shows back, through formatTime's
   * Taipei clock, as exactly the date and hour:minute that were typed, for
   * every real calendar date and time of day.
   */
  lemma AbsoluteShownOnUtcHost(s: string, m: DateMatch, now: int)
    requires WellFormedDate(m) && Canonical(s) == DateText(m)
    requires IsValid(TypedDate(m)) && HourOf(m) < 24 && MinuteOfDate(m) < 60
    ensures ParseHumanTime(Some(s), now, 0).Deadline?
    ensures FormatTime(Some(ParseHumanTime(Some(s), now, 0).at)) == Shown(TypedDate(m), HourOf(m), MinuteOfDate(m))
  {
    ParseAbsoluteOnUtcHost(s, m, now);
    DateFieldBounds(m);
    ShownAt(TypedDate(m), HourOf(m), MinuteOfDate(m));
  }

  /** formatTime of a Taipei wall-clock instant at 59.999 seconds, stated on abstract fields. */
  lemma ShownAt(d: Date, hh: int, mm: int)
    requires IsValid(d) && 0 <= hh < 24 && 0 <= mm < 60
    requires -MAX_TIME_MS <= LocalToEpoch(d, hh, mm, 59, 999, TAIPEI_OFFSET_MS) <= MAX_TIME_MS
    ensures FormatTime(Some(Time(LocalToEpoch(d, hh, mm, 59, 999, TAIPEI_OFFSET_MS)))) == Shown(d, hh, mm)
  {
    FormatShowsTaipeiClock(d, hh, mm, 59, 999);
  }
}
