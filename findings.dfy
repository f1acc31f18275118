/**
 * Two slips in parseHumanTime of utils/time.js, each stated twice: as the
 * code is written, and as the rest of the function evidently means it.
 *
 * 1. `今天` returns the end of the local day without the Taipei offset every
 *    other branch subtracts (utils/time.js:38 against 42 and 47), so today's
 *    deadline lies only 16 hours before tomorrow's and, on a UTC host,
 *    formatTime shows it as 07:59 of the next day.
 * 2. `今晚` reads `hour` before its `let` (utils/time.js:60 against 62), so
 *    every `今晚<n>点` text throws a ReferenceError instead of meaning n in
 *    the evening.
 */
module Findings {
  import opened Wrappers
  import opened Calendar
  import opened JsDate
  import opened JsText
  import opened HumanTime
  import opened DeadlineProperties

  // ---------------------------------------------------------------- 今天, as written

  /** As written: `明天` lies only 16 hours after `今天`, not a day. */
  lemma TomorrowMinusToday(today: string, tomorrow: string, now: int, tz: int)
    requires Canonical(today) == "今天" && Canonical(tomorrow) == "明天"
    requires NowInRange(now) && HostOffset(tz)
    ensures var p, q := ParseHumanTime(Some(today), now, tz), ParseHumanTime(Some(tomorrow), now, tz);
      p.Deadline? && p.at.Time? && q.Deadline? && q.at.Time? && q.at.ms - p.at.ms == 86400000 - TAIPEI_OFFSET_MS
  {
    ParseToday(today, now, tz);
    ParseTomorrow(tomorrow, now, tz);
  }

  /** The end of a UTC day, read on a Taipei clock, is 07:59 of the next day. */
  lemma EndOfUtcDayOnTaipeiClock(n: int)
    ensures WallClock(n, 23, 59, 59, 999, 0) == LocalToEpoch(FromDayNumber(n + 1), 7, 59, 59, 999, TAIPEI_OFFSET_MS)
  {
  }

  /** As written, on a UTC host formatTime shows a `今天` deadline as 07:59 of tomorrow. */
  lemma TodayShownOnUtcHost(s: string, now: int)
    requires Canonical(s) == "今天" && NowInRange(now)
    ensures ParseHumanTime(Some(s), now, 0).Deadline?
    ensures FormatTime(Some(ParseHumanTime(Some(s), now, 0).at)) == Shown(FromDayNumber(LocalDay(now, 0) + 1), 7, 59)
  {
    ParseToday(s, now, 0);
    TodayEndOnUtcHost(now);
    ShownAt(FromDayNumber(LocalDay(now, 0) + 1), 7, 59);
  }

  /** On a UTC host, the end of today's day is 07:59:59.999 of tomorrow on a Taipei clock. */
  lemma TodayEndOnUtcHost(now: int)
    requires NowInRange(now)
    ensures WallClock(LocalDay(now, 0), 23, 59, 59, 999, 0)
         == LocalToEpoch(FromDayNumber(LocalDay(now, 0) + 1), 7, 59, 59, 999, TAIPEI_OFFSET_MS)
    ensures -MAX_TIME_MS <= LocalToEpoch(FromDayNumber(LocalDay(now, 0) + 1), 7, 59, 59, 999, TAIPEI_OFFSET_MS) <= MAX_TIME_MS
  {
    var n := LocalDay(now, 0);
    EndOfUtcDayOnTaipeiClock(n);
    assert n * 86400000 <= now < n * 86400000 + 86400000;
  }

  // ---------------------------------------------------------------- 今天, corrected

  lemma ParseCorrectedOfCanonical(s: string, text: string, now: int, tz: int)
    requires Canonical(s) == text && text != []
    ensures ParseHumanTimeCorrected(Some(s), now, tz) == ParseTextCorrected(text, now, tz)
  {
    CanonicalEmpty();
  }

  /** Corrected: `今天` is the end of today's local day less the Taipei offset, like `明天` and `后天`. */
  lemma ParseTodayCorrected(s: string, now: int, tz: int)
    requires Canonical(s) == "今天" && NowInRange(now) && HostOffset(tz)
    ensures ParseHumanTimeCorrected(Some(s), now, tz)
         == Deadline(Time(WallClock(LocalDay(now, tz), 23, 59, 59, 999, tz) - TAIPEI_OFFSET_MS))
  {
    ParseCorrectedOfCanonical(s, "今天", now, tz);
    ParseToday(s, now, tz);
    assert ParseText("今天", now, tz) == ParseHumanTime(Some(s), now, tz) by {
      ParseOfCanonical(s, "今天", now, tz);
    }
  }

  lemma ParseTomorrowCorrected(s: string, now: int, tz: int)
    requires Canonical(s) == "明天" && NowInRange(now) && HostOffset(tz)
    ensures ParseHumanTimeCorrected(Some(s), now, tz) == ParseHumanTime(Some(s), now, tz)
  {
    ParseCorrectedOfCanonical(s, "明天", now, tz);
    ParseOfCanonical(s, "明天", now, tz);
    ParseTomorrow(s, now, tz);
  }

  /** Corrected: `明天` lies exactly one day after `今天`. */
  lemma TomorrowMinusTodayCorrected(today: string, tomorrow: string, now: int, tz: int)
    requires Canonical(today) == "今天" && Canonical(tomorrow) == "明天"
    requires NowInRange(now) && HostOffset(tz)
    ensures var p, q := ParseHumanTimeCorrected(Some(today), now, tz), ParseHumanTimeCorrected(Some(tomorrow), now, tz);
      p.Deadline? && p.at.Time? && q.Deadline? && q.at.Time? && q.at.ms - p.at.ms == 86400000
  {
    ParseTodayCorrected(today, now, tz);
    ParseTomorrowCorrected(tomorrow, now, tz);
    ParseTomorrow(tomorrow, now, tz);
  }

  /** Corrected, on a UTC host formatTime shows a `今天` deadline as 23:59 of today. */
  lemma TodayShownOnUtcHostCorrected(s: string, now: int)
    requires Canonical(s) == "今天" && NowInRange(now)
    ensures ParseHumanTimeCorrected(Some(s), now, 0).Deadline?
    ensures FormatTime(Some(ParseHumanTimeCorrected(Some(s), now, 0).at)) == Shown(LocalDate(now, 0), 23, 59)
  {
    ParseTodayCorrected(s, now, 0);
    TodayEndOnTaipeiClock(now);
    ShownAt(LocalDate(now, 0), 23, 59);
  }

  /** On a UTC host, the end of today's day less the Taipei offset is 23:59:59.999 of today on a Taipei clock. */
  lemma TodayEndOnTaipeiClock(now: int)
    requires NowInRange(now)
    ensures WallClock(LocalDay(now, 0), 23, 59, 59, 999, 0) - TAIPEI_OFFSET_MS
         == LocalToEpoch(LocalDate(now, 0), 23, 59, 59, 999, TAIPEI_OFFSET_MS)
    ensures -MAX_TIME_MS <= LocalToEpoch(LocalDate(now, 0), 23, 59, 59, 999, TAIPEI_OFFSET_MS) <= MAX_TIME_MS
  {
    var n := LocalDay(now, 0);
    assert n * 86400000 <= now < n * 86400000 + 86400000;
    assert DayNumberOf(LocalDate(now, 0)) == n;
  }

  // ---------------------------------------------------------------- 今晚

  /** The repaired clock branch on a `今晚` match: today's local day at the evening hour. */
  lemma TonightDeadlineCorrected(m: ClockMatch, now: int, tz: int)
    requires WellFormedClock(m) && m.day == Tonight
    requires NowInRange(now) && HostOffset(tz)
    ensures ClockDeadlineCorrected(m, now, tz)
         == Deadline(Time(ClockInstant(m, ClockHour(m.period, TonightHour(Tonight, DigitsValue(m.hour, 10))), now, tz) - TAIPEI_OFFSET_MS))
  {
    var hour := ClockHour(m.period, TonightHour(Tonight, DigitsValue(m.hour, 10)));
    assert 0 <= hour <= 111 by {
      ShortNumberValue(m.hour);
    }
    ClockAtInstant(m, hour, now, tz);
  }

  /** Corrected: a `今晚` clock text is today's local day at the hour shifted into the evening. */
  lemma ParseTonightCorrected(s: string, m: ClockMatch, now: int, tz: int)
    requires WellFormedClock(m) && Canonical(s) == ClockText(m) && m.day == Tonight
    requires NowInRange(now) && HostOffset(tz)
    ensures ParseHumanTimeCorrected(Some(s), now, tz)
         == Deadline(Time(ClockInstant(m, ClockHour(m.period, TonightHour(Tonight, DigitsValue(m.hour, 10))), now, tz) - TAIPEI_OFFSET_MS))
  {
    ParseClockText(s, m, now, tz);
    TonightDeadlineCorrected(m, now, tz);
  }

  /** On a UTC host, today's local clock at h:mi less the Taipei offset is h:mi of today on a Taipei clock. */
  lemma TodayClockOnUtcHost(m: ClockMatch, hour: int, now: int)
    requires WellFormedClock(m) && m.day == Tonight && 0 <= hour < 24 && MinuteOf(m) < 60 && NowInRange(now)
    ensures ClockInstant(m, hour, now, 0) - TAIPEI_OFFSET_MS == LocalToEpoch(LocalDate(now, 0), hour, MinuteOf(m), 0, 0, TAIPEI_OFFSET_MS)
    ensures -MAX_TIME_MS <= ClockInstant(m, hour, now, 0) - TAIPEI_OFFSET_MS <= MAX_TIME_MS
  {
    var n := LocalDay(now, 0);
    MinuteOfBound(m);
    assert n * 86400000 <= now < n * 86400000 + 86400000;
    assert DayNumberOf(LocalDate(now, 0)) == n;
  }

  /** Corrected, on a UTC host `今晚<h>点<mi>` with no period shows as h + 12 : mi of today. */
  lemma TonightShownOnUtcHostCorrected(s: string, m: ClockMatch, now: int)
    requires WellFormedClock(m) && Canonical(s) == ClockText(m) && m.day == Tonight && m.period.None?
    requires DigitsValue(m.hour, 10) < 12 && MinuteOf(m) < 60 && NowInRange(now)
    ensures ParseHumanTimeCorrected(Some(s), now, 0).Deadline?
    ensures FormatTime(Some(ParseHumanTimeCorrected(Some(s), now, 0).at))
         == Shown(LocalDate(now, 0), DigitsValue(m.hour, 10) + 12, MinuteOf(m))
  {
    var h := DigitsValue(m.hour, 10);
    ShortNumberValue(m.hour);
    MinuteOfBound(m);
    assert ClockHour(m.period, TonightHour(Tonight, h)) == h + 12;
    ParseTonightCorrected(s, m, now, 0);
    TodayClockOnUtcHost(m, h + 12, now);
    FormatShowsTaipeiClock(LocalDate(now, 0), h + 12, MinuteOf(m), 0, 0);
  }
}
