/**
 * parseHumanTime on a few concrete deadline texts: the no-deadline words in
 * their traditional and upper-case spellings, and texts no branch accepts.
 */
module SampleTexts {
  import opened Wrappers
  import opened Calendar
  import opened JsDate
  import opened JsText
  import opened HumanTime
  import opened DeadlineProperties

  /** A missing input and the empty string both mean "no deadline" (null), not "unparseable". */
  lemma FalsyInputs(now: int, tz: int)
    ensures ParseHumanTime(None, now, tz) == NoDeadline
    ensures ParseHumanTime(Some(""), now, tz) == NoDeadline
  {
  }

  /** The traditional `無` is normalised to `无`. */
  lemma TraditionalNone(now: int, tz: int)
    ensures ParseHumanTime(Some("無"), now, tz) == NoDeadline
  {
    CanonicalTraditionalNone();
    ParseOfCanonical("無", "无", now, tz);
  }

  lemma CanonicalTraditionalNone()
    ensures Canonical("無") == "无"
  {
    assert Trim("無") == "無" by { TrimUnchanged("無"); }
    assert ToLower("無") == "無" by { ToLowerUnchanged("無"); }
    assert NormalizeChinese("無") == "无";
  }

  /** Surrounding spaces are trimmed and `NONE` is lower-cased to `none`. */
  lemma PaddedUpperNone(now: int, tz: int)
    ensures ParseHumanTime(Some(" NONE "), now, tz) == NoDeadline
  {
    CanonicalPaddedUpperNone();
    ParseOfCanonical(" NONE ", "none", now, tz);
  }

  lemma CanonicalPaddedUpperNone()
    ensures Canonical(" NONE ") == "none"
  {
    assert TrimStart(" NONE ") == "NONE " by {
      assert TrimStart("NONE ") == "NONE ";
    }
    assert TrimEnd("NONE ") == "NONE" by {
      assert TrimEnd("NONE") == "NONE";
    }
    assert ToLower("NONE") == "none";
    NormalizeUnchanged("none");
  }

  /** Any text whose canonical form is no keyword and matches neither pattern is unparseable. */
  lemma UnmatchedText(s: string, now: int, tz: int)
    requires s != []
    requires var text := Canonical(s);
      !IsNoDeadlineWord(text) && text != "今天" && text != "明天" && text != "后天"
      && MatchClock(text) == None && MatchDate(text) == None
    ensures ParseHumanTime(Some(s), now, tz) == Unparseable
  {
  }

  /** The same for a text that is already canonical. */
  lemma UnmatchedCanonical(s: string, now: int, tz: int)
    requires s != [] && IsCanonicalText(s) && !IsNoDeadlineWord(s) && s != "今天" && s != "明天" && s != "后天"
    requires MatchClock(s) == None && MatchDate(s) == None
    ensures ParseHumanTime(Some(s), now, tz) == Unparseable
  {
    CanonicalUnchanged(s);
    UnmatchedText(s, now, tz);
  }

  /** A text of spaces only is not falsy; it trims to the empty text, which nothing matches: unparseable, not null. */
  lemma BlankInput(now: int, tz: int)
    ensures ParseHumanTime(Some(" "), now, tz) == Unparseable
  {
    assert Canonical(" ") == [] by {
      assert TrimStart(" ") == [];
      assert Trim(" ") == [];
    }
    UnmatchedText(" ", now, tz);
  }

  /** `今晚` alone has no hour and is not a day word: unparseable. */
  lemma BareTonight(now: int, tz: int)
    ensures ParseHumanTime(Some("今晚"), now, tz) == Unparseable
  {
    UnmatchedCanonical("今晚", now, tz);
  }

  /** `后天` takes no clock: `后天3点` is unparseable. */
  lemma DayAfterTomorrowWithClock(now: int, tz: int)
    ensures ParseHumanTime(Some("后天3点"), now, tz) == Unparseable
  {
    UnmatchedCanonical("后天3点", now, tz);
  }

  /** The clock pattern wants digits after `点`: `明天8点` is unparseable, `明天8点30` is not. */
  lemma TrailingPointWithoutMinutes(now: int, tz: int)
    ensures ParseHumanTime(Some("明天8点"), now, tz) == Unparseable
  {
    UnmatchedCanonical("明天8点", now, tz);
  }

  /** The traditional `後天` is the bare day word `后天`. */
  lemma TraditionalDayAfterTomorrow(now: int, tz: int)
    requires NowInRange(now) && HostOffset(tz)
    ensures ParseHumanTime(Some("後天"), now, tz)
         == Deadline(Time(WallClock(LocalDay(now, tz) + 2, 23, 59, 59, 999, tz) - TAIPEI_OFFSET_MS))
  {
    CanonicalTraditionalDayAfterTomorrow();
    ParseDayAfterTomorrow("後天", now, tz);
  }

  lemma CanonicalTraditionalDayAfterTomorrow()
    ensures Canonical("後天") == "后天"
  {
    assert Trim("後天") == "後天" by { TrimUnchanged("後天"); }
    assert ToLower("後天") == "後天" by { ToLowerUnchanged("後天"); }
    assert NormalizeChinese("後天") == "后天";
  }

  /** `明天下午3` is 15:00 of tomorrow's local date, less the Taipei offset. */
  lemma TomorrowAfternoon(now: int, tz: int)
    requires NowInRange(now) && HostOffset(tz)
    ensures ParseHumanTime(Some("明天下午3"), now, tz)
         == Deadline(Time(WallClock(LocalDay(now, tz) + 1, 15, 0, 0, 0, tz) - TAIPEI_OFFSET_MS))
  {
    TomorrowAfternoonFacts();
    ParseClockText("明天下午3", TomorrowAfternoonMatch(), now, tz);
    TomorrowAfternoonDeadline(now, tz);
  }

  lemma TomorrowAfternoonDeadline(now: int, tz: int)
    requires NowInRange(now) && HostOffset(tz)
    ensures ClockDeadline(TomorrowAfternoonMatch(), now, tz)
         == Deadline(Time(WallClock(LocalDay(now, tz) + 1, 15, 0, 0, 0, tz) - TAIPEI_OFFSET_MS))
  {
    var m := TomorrowAfternoonMatch();
    TomorrowAfternoonFields();
    ClockAtInstant(m, 15, now, tz);
    TomorrowAfternoonInstant(now, tz);
  }

  lemma TomorrowAfternoonInstant(now: int, tz: int)
    ensures ClockInstant(TomorrowAfternoonMatch(), 15, now, tz) == WallClock(LocalDay(now, tz) + 1, 15, 0, 0, 0, tz)
  {
    TomorrowAfternoonFields();
  }

  function TomorrowAfternoonMatch(): ClockMatch {
    ClockMatch(Tomorrow, Some(Afternoon), "3", None)
  }

  lemma TomorrowAfternoonFacts()
    ensures var m := TomorrowAfternoonMatch();
      WellFormedClock(m) && Canonical("明天下午3") == ClockText(m)
  {
    TomorrowAfternoonText();
    TomorrowAfternoonCanonical();
    TomorrowAfternoonFields();
  }

  lemma TomorrowAfternoonFields()
    ensures var m := TomorrowAfternoonMatch();
      WellFormedClock(m) && ClockHour(m.period, DigitsValue(m.hour, 10)) == 15 && MinuteOf(m) == 0 && DayOffset(m.day) == 1
  {
    assert DigitsValue("3", 10) == 3;
  }

  lemma TomorrowAfternoonText()
    ensures ClockText(TomorrowAfternoonMatch()) == "明天下午3"
  {
    assert PeriodTextOf(Some(Afternoon)) == "下午";
    assert MinuteText(None) == "";
  }

  lemma TomorrowAfternoonCanonical()
    ensures Canonical("明天下午3") == "明天下午3"
  {
    CanonicalUnchanged("明天下午3");
  }
}
