/**
 * The deadline-text parser and formatter of utils/time.js.
 *
 * `ParseHumanTime(input, now, tz)` maps a deadline text to a millisecond
 * timestamp, to "no deadline" (JavaScript null), to "unparseable"
 * (JavaScript undefined), or to the ReferenceError the `今晚` branch throws.
 * `now` is the host clock (ms since the epoch) and `tz` the host's fixed
 * local offset from UTC (ms); the parser's own TAIPEI_OFFSET_MS is applied on
 * top of the host's local-time interpretation, exactly as the code does.
 */
module HumanTime {
  import opened Wrappers
  import opened Calendar
  import opened JsDate
  import opened JsText

  const TAIPEI_OFFSET_MS: int := 28800000

  // ---------------------------------------------------------------- normalizeChinese

  predicate IsTraditionalGlyph(c: char) {
    c == '點' || c == '後' || c == '無' || c == '沒' || c == '間' || c == '鐘'
  }

  /** The fixed traditional -> simplified substitution for the glyphs that occur in deadline texts. */
  function SimplifiedGlyph(c: char): char {
    if c == '點' then '点'
    else if c == '後' then '后'
    else if c == '無' then '无'
    else if c == '沒' then '没'
    else if c == '間' then '间'
    else if c == '鐘' then '钟'
    else c
  }

  /** normalizeChinese: every listed traditional glyph replaced, every other character kept. */
  function NormalizeChinese(text: string): (r: string)
    ensures |r| == |text|
  {
    if text == [] then [] else [SimplifiedGlyph(text[0])] + NormalizeChinese(text[1..])
  }

  /** normalizeChinese replaces each listed traditional glyph and keeps every other character. */
  lemma {:induction false} NormalizeChineseChars(text: string)
    ensures forall i :: 0 <= i < |text| ==> NormalizeChinese(text)[i] == SimplifiedGlyph(text[i])
    ensures forall i :: 0 <= i < |text| ==> !IsTraditionalGlyph(NormalizeChinese(text)[i])
    decreases |text|
  {
    if text != [] {
      NormalizeChineseChars(text[1..]);
    }
  }

  lemma NormalizeUnchanged(text: string)
    requires forall i :: 0 <= i < |text| ==> !IsTraditionalGlyph(text[i])
    ensures NormalizeChinese(text) == text
  {
    NormalizeChineseChars(text);
  }

  /** Normalising twice is normalising once. */
  lemma NormalizeIdempotent(text: string)
    ensures NormalizeChinese(NormalizeChinese(text)) == NormalizeChinese(text)
  {
    NormalizeChineseChars(text);
    NormalizeUnchanged(NormalizeChinese(text));
  }

  /** The text the patterns are matched against: trimmed, lower-cased, normalised. */
  function Canonical(input: string): string {
    NormalizeChinese(ToLower(Trim(input)))
  }

  /** A text made only of characters that trimming, lower-casing and normalising leave alone. */
  predicate IsCanonicalText(s: string) {
    (s != [] ==> !IsJsWhitespace(s[0]) && !IsJsWhitespace(s[|s| - 1]))
    && forall i :: 0 <= i < |s| ==> !('A' <= s[i] <= 'Z') && !IsTraditionalGlyph(s[i])
  }

  lemma CanonicalUnchanged(s: string)
    requires IsCanonicalText(s)
    ensures Canonical(s) == s
  {
    assert Trim(s) == s by { TrimUnchanged(s); }
    assert ToLower(s) == s by { ToLowerUnchanged(s); }
    assert NormalizeChinese(s) == s by { NormalizeUnchanged(s); }
  }

  // ---------------------------------------------------------------- outcomes

  datatype Parsed =
    | Deadline(at: TimeValue)   // a number: a timestamp, or NaN if the instant lies outside the Date range
    | NoDeadline                // null
    | Unparseable               // undefined
    | Throws                    // the ReferenceError of the 今晚 branch

  predicate IsNoDeadlineWord(text: string) {
    text == "无" || text == "没有" || text == "不用" || text == "none" || text == "null"
  }

  // ---------------------------------------------------------------- the relative clock pattern
  // A day word (今天, 今晚, 明天), an optional period word, one or two hour
  // digits, then optionally ':' or '点' and one or two minute digits; nothing else.

  datatype DayWord = Today | Tonight | Tomorrow
  datatype Period = Morning | Forenoon | Noon | Afternoon | Evening
  datatype MinutePart = MinutePart(sep: char, digits: string)
  datatype ClockMatch = ClockMatch(day: DayWord, period: Option<Period>, hour: string, minute: Option<MinutePart>)

  function DayWordText(w: DayWord): string {
    match w
    case Today => "今天"
    case Tonight => "今晚"
    case Tomorrow => "明天"
  }

  function PeriodText(p: Period): string {
    match p
    case Morning => "早上"
    case Forenoon => "上午"
    case Noon => "中午"
    case Afternoon => "下午"
    case Evening => "晚上"
  }

  function DayWordOf(w: string): Option<DayWord> {
    if w == "今天" then Some(Today)
    else if w == "今晚" then Some(Tonight)
    else if w == "明天" then Some(Tomorrow)
    else None
  }

  function PeriodOf(w: string): Option<Period> {
    if w == "早上" then Some(Morning)
    else if w == "上午" then Some(Forenoon)
    else if w == "中午" then Some(Noon)
    else if w == "下午" then Some(Afternoon)
    else if w == "晚上" then Some(Evening)
    else None
  }

  /** One or two decimal digits, the whole string. */
  predicate IsShortNumber(s: string) {
    1 <= |s| <= 2 && AllDigits(s)
  }

  predicate WellFormedClock(m: ClockMatch) {
    IsShortNumber(m.hour) && WellFormedMinute(m.minute)
  }

  /** The one text a clock match stands for. */
  function ClockText(m: ClockMatch): string {
    DayWordText(m.day) + (PeriodTextOf(m.period) + (m.hour + MinuteText(m.minute)))
  }

  /** The leading digits of s, at most two (greedy, as a one-or-two digit group matches). */
  function LeadingDigits(s: string): (z: string)
    ensures |z| <= 2 && |z| <= |s| && z == s[..|z|] && AllDigits(z)
    ensures |z| < 2 && |z| < |s| ==> !IsDigit(s[|z|])
  {
    if s != [] && IsDigit(s[0]) then
      if |s| >= 2 && IsDigit(s[1]) then s[..2] else s[..1]
    else []
  }

  lemma DayWordOfText(w: string)
    ensures DayWordOf(w).Some? ==> DayWordText(DayWordOf(w).value) == w
  {
  }

  lemma TextOfDayWord(d: DayWord)
    ensures DayWordOf(DayWordText(d)) == Some(d)
  {
  }

  lemma PeriodOfText(w: string)
    ensures PeriodOf(w).Some? ==> PeriodText(PeriodOf(w).value) == w
  {
  }

  lemma TextOfPeriod(p: Period)
    ensures PeriodOf(PeriodText(p)) == Some(p)
  {
  }

  function PeriodTextOf(period: Option<Period>): string {
    if period.Some? then PeriodText(period.value) else ""
  }

  function MinuteText(minute: Option<MinutePart>): string {
    if minute.Some? then [minute.value.sep] + minute.value.digits else ""
  }

  predicate WellFormedMinute(minute: Option<MinutePart>) {
    minute.Some? ==> (minute.value.sep == ':' || minute.value.sep == '点') && IsShortNumber(minute.value.digits)
  }

  /** The hour digits, then optionally ':' or '点' and the minute digits, up to the end of the text. */
  function MatchHourMinute(s: string): (r: Option<(string, Option<MinutePart>)>)
    ensures r.Some? ==> IsShortNumber(r.value.0) && WellFormedMinute(r.value.1)
    ensures r.Some? ==> r.value.0 + MinuteText(r.value.1) == s
  {
    var hour := LeadingDigits(s);
    var after := s[|hour|..];
    if hour == [] then None
    else if after == [] then Some((hour, None))
    else if (after[0] == ':' || after[0] == '点') && IsShortNumber(after[1..]) then
      assert after == [after[0]] + after[1..];
      Some((hour, Some(MinutePart(after[0], after[1..]))))
    else None
  }

  /** The clock part, once the day word and the optional period are consumed. */
  function MatchAfterPeriod(day: DayWord, period: Option<Period>, clock: string): (r: Option<ClockMatch>)
    ensures r.Some? ==> WellFormedClock(r.value) && r.value.day == day && r.value.period == period
    ensures r.Some? ==> r.value.hour + MinuteText(r.value.minute) == clock
  {
    match MatchHourMinute(clock)
    case None => None
    case Some(hm) => Some(ClockMatch(day, period, hm.0, hm.1))
  }

  /** The optional period, once the day word is consumed. */
  function MatchAfterDay(day: DayWord, rest: string): (r: Option<ClockMatch>)
    ensures r.Some? ==> WellFormedClock(r.value) && r.value.day == day
    ensures r.Some? ==> PeriodTextOf(r.value.period) + (r.value.hour + MinuteText(r.value.minute)) == rest
  {
    var period := if |rest| >= 2 then PeriodOf(rest[..2]) else None;
    if period.Some? then
      PeriodOfText(rest[..2]);
      assert rest == rest[..2] + rest[2..];
      MatchAfterPeriod(day, period, rest[2..])
    else
      MatchAfterPeriod(day, None, rest)
  }

  /** The regular expression of utils/time.js:51-53 against the whole text. */
  function MatchClock(text: string): (r: Option<ClockMatch>)
    ensures r.Some? ==> WellFormedClock(r.value) && ClockText(r.value) == text
  {
    if |text| < 2 || DayWordOf(text[..2]).None? then None
    else
      DayWordOfText(text[..2]);
      assert text == text[..2] + text[2..];
      MatchAfterDay(DayWordOf(text[..2]).value, text[2..])
  }

  lemma HourMinuteComplete(hour: string, minute: Option<MinutePart>)
    requires IsShortNumber(hour) && WellFormedMinute(minute)
    ensures MatchHourMinute(hour + MinuteText(minute)) == Some((hour, minute))
  {
    var clock := hour + MinuteText(minute);
    assert clock[..|hour|] == hour;
    assert LeadingDigits(clock) == hour by {
      if |hour| == 1 && |clock| > 1 {
        assert clock[1] == minute.value.sep;
      }
    }
    assert clock[|hour|..] == MinuteText(minute);
    if minute.Some? {
      assert MinuteText(minute)[1..] == minute.value.digits;
    }
  }

  lemma NoPeriodBeforeDigit(s: string)
    requires |s| >= 2 && IsDigit(s[0])
    ensures PeriodOf(s[..2]).None?
  {
    var w := s[..2];
    assert w[0] == s[0];
    assert w != "早上" && w != "上午" && w != "中午" && w != "下午" && w != "晚上" by {
      assert "早上"[0] == '早' && "上午"[0] == '上' && "中午"[0] == '中' && "下午"[0] == '下' && "晚上"[0] == '晚';
    }
  }

  lemma MatchAfterDayComplete(m: ClockMatch)
    requires WellFormedClock(m)
    ensures MatchAfterDay(m.day, PeriodTextOf(m.period) + (m.hour + MinuteText(m.minute))) == Some(m)
  {
    var clock := m.hour + MinuteText(m.minute);
    var rest := PeriodTextOf(m.period) + clock;
    HourMinuteComplete(m.hour, m.minute);
    if m.period.Some? {
      assert rest[..2] == PeriodText(m.period.value) && rest[2..] == clock;
      TextOfPeriod(m.period.value);
    } else {
      assert rest == clock;
      assert IsDigit(rest[0]);
      if |rest| >= 2 {
        NoPeriodBeforeDigit(rest);
      }
    }
  }

  /** Every well-formed clock text is matched, and matched as itself. */
  lemma MatchClockComplete(m: ClockMatch)
    requires WellFormedClock(m)
    ensures MatchClock(ClockText(m)) == Some(m)
  {
    var text := ClockText(m);
    var rest := PeriodTextOf(m.period) + (m.hour + MinuteText(m.minute));
    assert text[..2] == DayWordText(m.day) && text[2..] == rest;
    TextOfDayWord(m.day);
    MatchAfterDayComplete(m);
  }

  /** The 12-hour -> 24-hour shift of utils/time.js:65-68 (afternoon and evening below 12, noon below 11). */
  function ClockHour(period: Option<Period>, hour: int): int {
    if (period == Some(Afternoon) || period == Some(Evening)) && hour < 12 then hour + 12
    else if period == Some(Noon) && hour < 11 then hour + 12
    else hour
  }

  /** The shift utils/time.js:60 means to make: a `今晚` hour before noon is an evening hour. */
  function TonightHour(day: DayWord, hour: int): int {
    if day == Tonight && hour < 12 then hour + 12 else hour
  }

  /** The minute: the value of its digits when present, otherwise 0 (utils/time.js:63). */
  function MinuteOf(m: ClockMatch): int {
    if m.minute.Some? then DigitsValue(m.minute.value.digits, 10) else 0
  }

  /** The local day the clock pattern refers to: tomorrow for `明天`, today otherwise (utils/time.js:57-59). */
  function DayOffset(day: DayWord): int {
    if day == Tomorrow then 1 else 0
  }

  function EndOfDay(v: TimeValue, tz: int): TimeValue {
    SetHours(v, 23, 59, 59, 999, tz)
  }

  /** The local clock set to hour:minute:00.000, the NaN guard and the offset, utils/time.js:70-72. */
  function ClockAt(date: TimeValue, hour: int, minute: int, tz: int): Parsed {
    var t := SetHours(date, hour, minute, 0, 0, tz);
    if t.NaN? then NoDeadline else Deadline(Time(t.ms - TAIPEI_OFFSET_MS))
  }

  function ClockDate(m: ClockMatch, now: int, tz: int): TimeValue {
    if m.day == Tomorrow then AddLocalDays(TimeClip(now), 1, tz) else TimeClip(now)
  }

  /** The `cnTimeMatch` branch as written, utils/time.js:55-73: for `今晚` line 60 reads `hour` before its `let` and throws. */
  function ClockDeadline(m: ClockMatch, now: int, tz: int): Parsed {
    if m.day == Tonight then Throws
    else ClockAt(ClockDate(m, now, tz), ClockHour(m.period, DigitsValue(m.hour, 10)), MinuteOf(m), tz)
  }

  /** The same branch with the `今晚` shift made once `hour` is declared. */
  function ClockDeadlineCorrected(m: ClockMatch, now: int, tz: int): Parsed {
    ClockAt(ClockDate(m, now, tz), ClockHour(m.period, TonightHour(m.day, DigitsValue(m.hour, 10))), MinuteOf(m), tz)
  }

  // ---------------------------------------------------------------- the absolute date pattern
  // Four year digits, '-' or '/', one or two month digits, '-' or '/', one or
  // two day digits, then optionally whitespace, hour digits, ':' and minute digits.

  datatype TimePart = TimePart(space: string, hour: string, minute: string)
  datatype DateMatch = DateMatch(year: string, sep1: char, month: string, sep2: char, day: string, time: Option<TimePart>)

  predicate IsDateSep(c: char) {
    c == '-' || c == '/'
  }

  predicate AllWhitespace(s: string) {
    forall i :: 0 <= i < |s| ==> IsJsWhitespace(s[i])
  }

  predicate WellFormedDate(m: DateMatch) {
    && |m.year| == 4 && AllDigits(m.year)
    && IsDateSep(m.sep1) && IsDateSep(m.sep2)
    && IsShortNumber(m.month) && IsShortNumber(m.day)
    && WellFormedTime(m.time)
  }

  predicate WellFormedTime(time: Option<TimePart>) {
    time.Some? ==>
      time.value.space != [] && AllWhitespace(time.value.space)
      && IsShortNumber(time.value.hour) && IsShortNumber(time.value.minute)
  }

  function TimeText(t: TimePart): string {
    t.space + t.hour + ":" + t.minute
  }

  /** The one text a date match stands for. */
  function DateText(m: DateMatch): string {
    m.year + ([m.sep1] + (m.month + ([m.sep2] + (m.day + TimeTextOf(m.time)))))
  }

  function TimeTextOf(time: Option<TimePart>): string {
    if time.Some? then TimeText(time.value) else ""
  }

  /** The leading whitespace of s (greedy, possibly empty). */
  function LeadingSpace(s: string): (w: string)
    ensures |w| <= |s| && w == s[..|w|] && AllWhitespace(w)
    ensures |w| < |s| ==> !IsJsWhitespace(s[|w|])
  {
    if s != [] && IsJsWhitespace(s[0]) then [s[0]] + LeadingSpace(s[1..]) else []
  }

  /** Whitespace, the hour digits, ':' and the minute digits, up to the end of the text. */
  function MatchTimePart(s: string): (r: Option<TimePart>)
    ensures r.Some? ==> TimeText(r.value) == s
  {
    var space := LeadingSpace(s);
    var after := s[|space|..];
    var hour := LeadingDigits(after);
    if space == [] || hour == [] || |hour| >= |after| || after[|hour|] != ':' then None
    else if IsShortNumber(after[|hour| + 1..]) then
      assert s == space + after;
      assert after == hour + ":" + after[|hour| + 1..];
      Some(TimePart(space, hour, after[|hour| + 1..]))
    else None
  }

  /** The day digits, then the optional time part, up to the end of the text. */
  function MatchDayAndTime(s: string): (r: Option<(string, Option<TimePart>)>)
    ensures r.Some? ==> IsShortNumber(r.value.0) && WellFormedTime(r.value.1)
    ensures r.Some? ==> r.value.0 + TimeTextOf(r.value.1) == s
  {
    var day := LeadingDigits(s);
    var rest := s[|day|..];
    assert s == day + rest;
    if day == [] then None
    else if rest == [] then Some((day, None))
    else
      match MatchTimePart(rest)
      case None => None
      case Some(tp) => Some((day, Some(tp)))
  }

  /** The month, the second separator and the rest, once the year and the first separator are consumed. */
  function MatchAfterYear(year: string, sep1: char, s: string): (r: Option<DateMatch>)
    ensures r.Some? ==> r.value.year == year && r.value.sep1 == sep1
    ensures r.Some? ==> IsDateSep(r.value.sep2) && IsShortNumber(r.value.month) && IsShortNumber(r.value.day)
    ensures r.Some? ==> WellFormedTime(r.value.time)
    ensures r.Some? ==> r.value.month + ([r.value.sep2] + (r.value.day + TimeTextOf(r.value.time))) == s
  {
    var month := LeadingDigits(s);
    if month == [] || |month| >= |s| || !IsDateSep(s[|month|]) then None
    else
      assert s == month + ([s[|month|]] + s[|month| + 1..]);
      match MatchDayAndTime(s[|month| + 1..])
      case None => None
      case Some(dt) => Some(DateMatch(year, sep1, month, s[|month|], dt.0, dt.1))
  }

  /** The regular expression of utils/time.js:76-78 against the whole text. */
  function MatchDate(text: string): (r: Option<DateMatch>)
    ensures r.Some? ==> WellFormedDate(r.value) && DateText(r.value) == text
  {
    if |text| < 5 || !AllDigits(text[..4]) || !IsDateSep(text[4]) then None
    else
      assert text == text[..4] + ([text[4]] + text[5..]);
      MatchAfterYear(text[..4], text[4], text[5..])
  }

  lemma LeadingSpaceOf(w: string, rest: string)
    requires AllWhitespace(w)
    requires rest == [] || !IsJsWhitespace(rest[0])
    ensures LeadingSpace(w + rest) == w
  {
    if w != [] {
      assert (w + rest)[1..] == w[1..] + rest;
      LeadingSpaceOf(w[1..], rest);
    }
  }

  lemma LeadingDigitsOf(z: string, rest: string)
    requires IsShortNumber(z)
    requires rest == [] || !IsDigit(rest[0])
    ensures LeadingDigits(z + rest) == z
  {
    assert (z + rest)[..|z|] == z;
  }

  lemma MatchTimePartComplete(t: TimePart)
    requires t.space != [] && AllWhitespace(t.space) && IsShortNumber(t.hour) && IsShortNumber(t.minute)
    ensures MatchTimePart(TimeText(t)) == Some(t)
  {
    var after := t.hour + ":" + t.minute;
    SpaceBeforeClock(t, after);
    ClockAfterSpace(t.hour, t.minute, after);
  }

  lemma SpaceBeforeClock(t: TimePart, after: string)
    requires AllWhitespace(t.space) && IsShortNumber(t.hour) && after == t.hour + ":" + t.minute
    ensures LeadingSpace(TimeText(t)) == t.space && TimeText(t)[|t.space|..] == after
  {
    assert TimeText(t) == t.space + after;
    assert after[0] == t.hour[0];
    LeadingSpaceOf(t.space, after);
  }

  lemma ClockAfterSpace(hour: string, minute: string, after: string)
    requires IsShortNumber(hour) && after == hour + ":" + minute
    ensures LeadingDigits(after) == hour && |hour| < |after| && after[|hour|] == ':' && after[|hour| + 1..] == minute
  {
    assert after == hour + (":" + minute);
    LeadingDigitsOf(hour, ":" + minute);
  }

  lemma MatchDayAndTimeComplete(day: string, time: Option<TimePart>)
    requires IsShortNumber(day) && WellFormedTime(time)
    ensures MatchDayAndTime(day + TimeTextOf(time)) == Some((day, time))
  {
    var tail := TimeTextOf(time);
    if time.Some? {
      assert !IsDigit(tail[0]) by {
        assert tail[0] == time.value.space[0];
      }
      MatchTimePartComplete(time.value);
    }
    LeadingDigitsOf(day, tail);
    assert (day + tail)[|day|..] == tail;
  }

  lemma MatchAfterYearComplete(m: DateMatch)
    requires WellFormedDate(m)
    ensures MatchAfterYear(m.year, m.sep1, m.month + ([m.sep2] + (m.day + TimeTextOf(m.time)))) == Some(m)
  {
    var rest := [m.sep2] + (m.day + TimeTextOf(m.time));
    var s := m.month + rest;
    LeadingDigitsOf(m.month, rest);
    assert s[|m.month|] == m.sep2;
    assert s[|m.month| + 1..] == m.day + TimeTextOf(m.time);
    MatchDayAndTimeComplete(m.day, m.time);
  }

  /** Every well-formed date text is matched, and matched as itself. */
  lemma MatchDateComplete(m: DateMatch)
    requires WellFormedDate(m)
    ensures MatchDate(DateText(m)) == Some(m)
  {
    var text := DateText(m);
    assert text[..4] == m.year && text[4] == m.sep1;
    assert text[5..] == m.month + ([m.sep2] + (m.day + TimeTextOf(m.time)));
    MatchAfterYearComplete(m);
  }

  /** The hour: the matched digits, or 23 without a time part (utils/time.js:81). */
  function HourOf(m: DateMatch): int {
    if m.time.Some? then DigitsValue(m.time.value.hour, 10) else 23
  }

  /** The minute: the matched digits, or 59 without a time part (utils/time.js:81). */
  function MinuteOfDate(m: DateMatch): int {
    if m.time.Some? then DigitsValue(m.time.value.minute, 10) else 59
  }

  /** The local date-time of the matched fields at 59.999 seconds, the NaN guard and the offset, utils/time.js:80-94. */
  function DateDeadline(m: DateMatch, tz: int): Parsed {
    var t := NewLocalDate(DigitsValue(m.year, 10), DigitsValue(m.month, 10) - 1, DigitsValue(m.day, 10), HourOf(m), MinuteOfDate(m), 59, 999, tz);
    if t.NaN? then NoDeadline else Deadline(Time(t.ms - TAIPEI_OFFSET_MS))
  }

  // ---------------------------------------------------------------- parseHumanTime

  /** A text of the clock pattern is none of the keywords checked before it. */
  lemma ClockTextNotKeyword(t: string)
    requires MatchClock(t).Some?
    ensures !IsNoDeadlineWord(t)
    ensures t != "今天" && t != "明天" && t != "后天"
  {
    var m := MatchClock(t).value;
    assert t[0] == DayWordText(m.day)[0];
    assert |t| >= 3;
  }

  /** utils/time.js:15-97 */
  function ParseHumanTime(input: Option<string>, now: int, tz: int): (r: Parsed)
    ensures input.None? || input.value == [] ==> r == NoDeadline
    ensures r.Throws? <==>
      input.Some? && input.value != [] && MatchClock(Canonical(input.value)).Some?
      && MatchClock(Canonical(input.value)).value.day == Tonight
  {
    if input.None? || input.value == [] then NoDeadline
    else ParseText(Canonical(input.value), now, tz)
  }

  /** The tests of utils/time.js:24-96 on the canonical text, in code order. */
  function ParseText(text: string, now: int, tz: int): (r: Parsed)
    ensures r.Throws? <==> MatchClock(text).Some? && MatchClock(text).value.day == Tonight
  {
    assert MatchClock(text).Some? ==> !IsNoDeadlineWord(text) && text != "今天" && text != "明天" && text != "后天" by {
      if MatchClock(text).Some? { ClockTextNotKeyword(text); }
    }
    if IsNoDeadlineWord(text) then NoDeadline
    else if text == "今天" then Deadline(EndOfDay(TimeClip(now), tz))
    else if text == "明天" then Deadline(Minus(EndOfDay(AddLocalDays(TimeClip(now), 1, tz), tz), TAIPEI_OFFSET_MS))
    else if text == "后天" then Deadline(Minus(EndOfDay(AddLocalDays(TimeClip(now), 2, tz), tz), TAIPEI_OFFSET_MS))
    else
      match MatchClock(text)
      case Some(cm) => ClockDeadline(cm, now, tz)
      case None =>
        match MatchDate(text)
        case Some(dm) => DateDeadline(dm, tz)
        case None => Unparseable
  }

  /**
   * parseHumanTime with its two evident slips repaired: `今天` is shifted by
   * the Taipei offset like every other result, and `今晚` gets its evening
   * shift instead of the ReferenceError.
   */
  function ParseHumanTimeCorrected(input: Option<string>, now: int, tz: int): (r: Parsed)
    ensures !r.Throws?
  {
    if input.None? || input.value == [] then NoDeadline
    else ParseTextCorrected(Canonical(input.value), now, tz)
  }

  /** ParseText, with the `今晚` clock texts and `今天` repaired and every other outcome kept. */
  function ParseTextCorrected(text: string, now: int, tz: int): (r: Parsed)
    ensures !r.Throws?
  {
    var p := ParseText(text, now, tz);
    if p.Throws? then ClockDeadlineCorrected(MatchClock(text).value, now, tz)
    else if text == "今天" then Deadline(Minus(p.at, TAIPEI_OFFSET_MS))
    else p
  }

  // ---------------------------------------------------------------- formatTime

  datatype Display = Dash | InvalidDate | Shown(date: Date, hour: int, minute: int)

  /** formatTime: the calendar date and hour:minute of a timestamp on a UTC+8 clock; null gives a dash. */
  function FormatTime(ts: Option<TimeValue>): (r: Display)
    ensures r == Dash <==> ts.None?
    ensures r.Shown? <==> ts.Some? && ts.value.Time? && -MAX_TIME_MS <= ts.value.ms <= MAX_TIME_MS
    ensures r.Shown? ==> IsValid(r.date) && 0 <= r.hour < 24 && 0 <= r.minute < 60
    ensures r.Shown? ==>
      var shown := LocalToEpoch(r.date, r.hour, r.minute, 0, 0, TAIPEI_OFFSET_MS);
      shown <= ts.value.ms < shown + 60000
  {
    match ts
    case None => Dash
    case Some(v) =>
      match (if v.Time? then TimeClip(v.ms) else NaN)
      case NaN => InvalidDate
      case Time(t) =>
        var local := t + TAIPEI_OFFSET_MS;
        var tod := TimeWithinDay(local);
        Shown(FromDayNumber(Day(local)), tod / 3600000, tod % 3600000 / 60000)
  }
}
