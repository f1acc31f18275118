# discord-todo-bot, modelled in Dafny

The repository is a Discord bot for a personal todo list. Users talk to it in
one channel:

- `添加` starts a three-step dialogue that asks for a name, a deadline and a
  priority, then inserts a row into a SQLite `todos` table.
- `列表` lists the sender's rows in a fixed order.
- `完成 <id>` marks one of the sender's rows done.
- `删除 <id>` deletes one of the sender's rows.

Beside the handler the repository holds two more pieces:

- a deadline-text parser, `parseHumanTime`, that reads texts like `明天下午3` or
  `2025-03-01 18:30` in the UTC+8 convention, with `formatTime` to print the
  result;
- a reminder sweep, `startReminder`, that each minute reminds users of tasks
  due within half an hour.

The model has three parts.

- **The message handler** of index.js:
  - `TodoBot.Bot` holds the per-user dialogue map, the `todos` table and the
    AUTOINCREMENT counter.
  - `HandleMessage` processes one message. Its contract gives the whole new
    state and the reply for every branch.
  - `TodoTable` holds the table queries: the owner-scoped listing order, and
    UPDATE and DELETE by id and owner.
- **The deadline parser** of utils/time.js.
  - `HumanTime.ParseHumanTime` returns one of four outcomes: a timestamp, no
    deadline (null), unparseable (undefined), or the ReferenceError the `今晚`
    branch throws.
  - It is built on a model of the JavaScript pieces it relies on:
    - `JsText`: trim, toLowerCase, split and parseInt;
    - `JsDate`: time values, TimeClip, setDate, setHours and the Date
      constructor on a host with a fixed offset;
    - `Calendar`: the proleptic Gregorian calendar with a proved inverse of the
      day number.
  - `DeadlineProperties` proves what each branch returns.
  - `SampleTexts` works through concrete inputs.
  - `Findings` holds the code's two slips and their repairs.
- **One reminder tick** of utils/reminder.js: `Reminder.TaskTable.Tick` walks
  the selected rows with a loop. It is proved equal to the specification
  `AfterTick`, and `AfterTick` is characterised row by row.

Points where the code behaves in ways a reader might not expect:

- index.js stores the deadline as the raw message text (or null for `无`). It
  never calls parseHumanTime, and it never starts the reminder.
- `完成` and `删除` take the stored row id, the `ID:` the listing shows.
- Once a user has a dialogue entry, every message from them, `添加` and
  `列表` included, is taken as the answer to the current step, until the
  priority step removes the entry.
- The reminder reads a `tasks` table (`user`, `name`, numeric `deadline`,
  `completed`, `reminded`) that index.js never creates. The two tables are
  modelled separately, as written.
- A four-digit year from 0000 to 0099 is read as 1900-1999 (`FullYear`), as
  the Date constructor does.
- `3点` with no minute digits does not match the clock pattern.
- A deadline text of spaces only is not falsy, so parseHumanTime trims it to
  the empty text and returns undefined, not null.

Time is a parameter. `now` is the host clock in milliseconds since the epoch.
`tz` is the host's fixed offset from UTC in milliseconds, with no daylight
saving time. Many lemmas require `NowInRange(now)`: now lies at least ten days
inside the ±8.64e15 ms range of JavaScript time values. They also require
`HostOffset(tz)`: the offset is at most a day. Outside these ranges some
branches meet TimeClip's NaN, which the model keeps as a case.

## Model

| member | source | states |
|---|---|---|
| `JsText.TrimStart` | utils/time.js:20 | String.prototype.trimStart over the ECMAScript whitespace set; what it removes is stated by TrimStartSpec |
| `JsText.TrimEnd` | utils/time.js:20 | String.prototype.trimEnd over the same set; stated by TrimEndSpec |
| `JsText.Trim` | utils/time.js:20 | String.prototype.trim as trimEnd after trimStart; stated by TrimSpec |
| `JsText.ToLower` | utils/time.js:20 | String.prototype.toLowerCase, keeping the length; stated character by character by ToLowerChars |
| `JsText.TrimStartSpec` | utils/time.js:20 | trimStart removes exactly the leading whitespace: the result is a suffix of the input, everything cut off is ECMAScript whitespace, and the result does not start with whitespace |
| `JsText.TrimEndSpec` | utils/time.js:20 | trimEnd removes exactly the trailing whitespace: the result is a prefix of the input, everything cut off is whitespace, and the result does not end with whitespace |
| `JsText.TrimSpec` | utils/time.js:20 | trim keeps a slice s[a..b] of the input with only whitespace outside it and no whitespace at either end |
| `JsText.TrimUnchanged` | utils/time.js:20 | a text that neither starts nor ends with whitespace is its own trim |
| `JsText.ToLowerChars` | utils/time.js:20 | toLowerCase maps each character on its own (ASCII upper case to lower case, every other character kept) |
| `JsText.ToLowerUnchanged` | index.js:57 | a text without ASCII capitals is its own lower-casing |
| `JsText.SecondWord` | index.js:113 | `split(' ')[1]`, absent when the text has no space; stated by SecondWordOf, and by BareCommandHasNoId for the missing case |
| `JsText.ParseInt` | index.js:113 | parseInt of the argument, with a missing part read as the text `undefined`, after leading whitespace; its results are stated by ParseIntDecimal, BareCommandHasNoId and HexId |
| `JsText.ParseSigned` | index.js:113 | parseInt's optional sign in front of the magnitude; the negative case is stated by ParseIntNegative |
| `JsText.ParseMagnitude` | index.js:113 | parseInt's radix choice: hexadecimal after `0x` or `0X`, decimal otherwise; stated by ParseIntPositive and HexId |
| `JsText.ParseDigits` | index.js:113 | the value of the longest digit prefix, NaN when there is none; stated through DigitsValueBound and DecimalStringValue |
| `JsText.Split` | index.js:113 | split on one character yields at least one part, no part contains the separator, and joining the parts with it gives the input back |
| `JsText.SplitJoin` | index.js:113 | splitting a join of separator-free parts gives exactly those parts: split and join are inverse |
| `JsText.SecondWordOf` | index.js:113 | the second part of a split on spaces is the word between the first and second space, whatever follows the second space |
| `JsText.DecimalStringValue` | index.js:113 | the decimal digits of n denote n |
| `JsText.DigitsValueBound` | index.js:113 | a string of k decimal digits denotes a number below 10^k |
| `JsText.ParseIntPositive` | index.js:113 | parseInt reads a natural number's decimal rendering back, whatever non-digit text follows it |
| `JsText.ParseIntNegative` | index.js:113 | parseInt reads a minus sign and a decimal rendering back as the negative number |
| `JsText.ParseIntDecimal` | index.js:113 | parseInt reads back the decimal rendering of every integer followed by non-digit text (no `x` after a lone 0); hexadecimal read-back is shown only for one text, by `TodoBot.HexId` |
| `TodoTable.PriorityOf` | index.js:63 | the stored priority is always 高, 中 or 低; it equals the reply exactly when the reply is one of those three, and is 中 otherwise |
| `TodoTable.DeadlineOf` | index.js:57 | the deadline step: null exactly for `无`; the general statement is DeadlineNullExactly |
| `TodoTable.DeadlineNullExactly` | index.js:57 | the stored deadline is null exactly when the reply is `无`, and otherwise it is the reply text unchanged (not parsed) |
| `TodoTable.Owned` | index.js:85-91 | the owner-scoped selection holds exactly the table's rows with that user id |
| `TodoTable.MatchCount` | index.js:116-117 | the change count is 0 exactly when no row has both the id and the owner |
| `TodoTable.AtMostOneMatch` | index.js:20 | with AUTOINCREMENT's distinct ids, an id and an owner pick at most one row |
| `TodoTable.MarkDone` | index.js:116 | completing keeps the table's length and order, sets done on each row whose id and owner both match, and leaves every other row as it was |
| `TodoTable.MarkDoneNoMatch` | index.js:116-117 | a completion that matches no row leaves the table unchanged |
| `TodoTable.MarkDoneKeepsIds` | index.js:116 | completing keeps the ids in ascending order and within the counter's bound |
| `TodoTable.MarkDoneOtherUsers` | index.js:116 | another user's rows, in their order, are the same after a completion |
| `TodoTable.DeleteMatching` | index.js:126 | deleting removes exactly the rows whose id and owner both match, as many as the change count, and keeps every other row |
| `TodoTable.DeleteNoMatch` | index.js:126-127 | a deletion that matches no row leaves the table unchanged |
| `TodoTable.DeleteKeepsIds` | index.js:126 | deleting keeps the remaining ids in ascending order and within the counter's bound |
| `TodoTable.DeleteOtherUsers` | index.js:126 | another user's rows, in their order, survive a deletion |
| `TodoTable.Rank` | index.js:89 | the CASE on priority: 高 1, 中 2, anything else 3; its effect on the listing is stated by Sort and ListRows |
| `TodoTable.DeadlineKey` | index.js:90 | the CASE on deadline: 999999 for NULL, julianday of the text otherwise; stated by UndatedBeforeDated and UnreadableDeadlineFirst |
| `TodoTable.KeyLe` | index.js:90 | SQLite's ascending order on a nullable number, NULL first; stated by UnreadableDeadlineFirst |
| `TodoTable.RowLe` | index.js:88-90 | the three ORDER BY terms in turn; a total preorder by RowLeTotalPreorder |
| `TodoTable.RowLeTotalPreorder` | index.js:88-90 | the listing order (done ascending, then priority rank, then deadline key with NULL first) compares any two rows and is transitive |
| `TodoTable.Insert` | index.js:88-90 | putting a row into a sorted listing keeps it sorted and adds exactly that row |
| `TodoTable.Sort` | index.js:88-90 | the sorted rows are in listing order and are a permutation of the input |
| `TodoTable.ListRows` | index.js:85-91 | the listing query returns a permutation of the owner's rows in listing order |
| `TodoTable.ListedRowsExactly` | index.js:85-93 | a listing holds exactly the owner's rows, and it is empty exactly when the owner has no row |
| `TodoTable.SortedPlacesBefore` | index.js:88-90 | in a sorted listing a row that strictly precedes another in the order stands before it |
| `TodoTable.OpenBeforeDone` | index.js:88 | open rows are listed before completed ones |
| `TodoTable.UndatedBeforeDated` | index.js:90 | with equal status and priority, a row without a deadline (key 999999) is listed before a dated row whose julianday exceeds 999999 |
| `TodoTable.UnreadableDeadlineFirst` | index.js:90 | with equal status and priority, a deadline text that julianday reads as NULL is listed before every row without a deadline |
| `TodoBot.IdArgument` | index.js:113 | the id argument of `完成` and `删除`; stated by CommandWithId, BareCommandHasNoId and HexId |
| `TodoBot.Ignored` | index.js:41-42 | bot authors and other channels are dropped; HandleMessage states that nothing changes for them |
| `TodoBot.BareCommandHasNoId` | index.js:113-114 | a command word with no space has no second word, and parseInt of the missing argument is NaN, so the usage reply follows |
| `TodoBot.CommandWithId` | index.js:113 | a command word, a space, the decimal rendering of n, optionally followed by another space: the argument is n |
| `TodoBot.HexId` | index.js:113 | `完成 0x1F` names id 31: parseInt reads a hexadecimal argument |
| `TodoBot.Bot.constructor` | index.js:15-33 | a started bot keeps the persisted table and its AUTOINCREMENT sequence (CREATE TABLE IF NOT EXISTS), which must satisfy the table invariant, and has an empty dialogue map |
| `TodoBot.Bot.Insert` | index.js:66-68 | the INSERT appends exactly one row with the next AUTOINCREMENT id (above every existing id), the given owner, content, priority and deadline, and done = 0 |
| `TodoBot.Bot.Complete` | index.js:112-118 | a falsy parseInt argument (NaN or 0) gives the usage reply with the table unchanged; no matching row gives "not found" with the table unchanged; otherwise only the matching row is marked done |
| `TodoBot.Bot.Delete` | index.js:122-128 | a falsy argument gives the usage reply with the table unchanged; no matching row gives "not found" with the table unchanged; otherwise only the matching row is removed |
| `TodoBot.Bot.List` | index.js:84-93 | the reply is "empty" exactly when the sender has no row; otherwise it is a permutation of the sender's rows in listing order |
| `TodoBot.Bot.HandleMessage` | index.js:40-129 | bot or off-channel messages change nothing; a user with a dialogue entry advances exactly one step whatever the text (name, then deadline, then priority, insert and entry removed, other users' entries kept); otherwise exact `添加` creates the sender's entry, exact `列表` lists, texts starting with `完成`/`删除` complete or delete, and anything else is silent; the table invariant (ascending ids within the counter) is kept |
| `Calendar.DayNumber` | utils/time.js:82-90 | days since 1970-01-01 of a year, month and day that may lie outside the month; inverted by FromDayNumber and FromDayNumberOfValid |
| `Calendar.DaysBeforeMonthStep` | utils/time.js:41 | each month starts its month-length after the previous one, and the twelve months fill the year |
| `Calendar.DaysBeforeYearStep` | utils/time.js:41 | each year starts its year-length (365 or 366) after the previous one |
| `Calendar.DaysBeforeYearEra` | utils/time.js:41 | the Gregorian calendar repeats every 400 years of 146097 days |
| `Calendar.DaysBeforeYearMonotone` | utils/time.js:41 | later years start after earlier years end |
| `Calendar.YearOfEra` | utils/time.js:41 | the year within a 400-year era that contains a given day of the era |
| `Calendar.MonthOfYear` | utils/time.js:41 | the month that contains a given day of the year |
| `Calendar.YearContaining` | utils/time.js:41 | every day number lies in some year |
| `Calendar.DateOfDayNumber` | utils/time.js:41 | every day number is the number of some valid date |
| `Calendar.DayNumberInjective` | utils/time.js:41 | two valid dates with the same day number are equal |
| `Calendar.DayNumberUnique` | utils/time.js:41 | the day number tells valid dates apart |
| `Calendar.DayNumberWithinYear` | utils/time.js:41 | a valid date's day number lies within its own year |
| `Calendar.MonthStartsMonotone` | utils/time.js:41 | later months start no earlier |
| `Calendar.FromDayNumber` | utils/time.js:41 | the date of a day number is valid and has that day number |
| `Calendar.FromDayNumberOfValid` | utils/time.js:41 | the date of a valid date's day number is that date: the day-number map and its inverse round-trip |
| `Calendar.NextDayRollsOver` | utils/time.js:41 | the day after a month's last day is the first of the next month, and after 31 December it is 1 January of the next year |
| `Calendar.DaysAfterOfNumber` | utils/time.js:41 | moving k days on from a date reaches the valid date whose day number is k more |
| `JsDate.TimeClip` | utils/time.js:71 | a time value beyond ±8.64e15 ms is NaN, the case the isNaN guards test |
| `JsDate.Minus` | utils/time.js:72 | subtracting the offset from a number, NaN staying NaN |
| `JsDate.MakeDay` | utils/time.js:82-90 | ECMAScript MakeDay, with a zero-based month that may overflow either way; stated by MonthBeforeJanuary and DayZeroIsPreviousMonthEnd |
| `JsDate.AddLocalDays` | utils/time.js:41 | setDate(getDate() + k); stated by AddLocalDaysShifts |
| `JsDate.SetHours` | utils/time.js:33 | setHours on the local day; stated by SetHoursOnLocalDay |
| `JsDate.FullYear` | utils/time.js:83 | the Date constructor's year rule: 0 to 99 mean 1900 to 1999 |
| `JsDate.NewLocalDate` | utils/time.js:82-90 | the Date constructor on local fields; with in-bound fields a time value, by NewLocalDateInRange, read back by LocalToEpochReadBack |
| `JsDate.LocalDate` | utils/time.js:40 | the host's local calendar date of an instant is a valid date |
| `JsDate.AddLocalDaysShifts` | utils/time.js:41 | moving the day of month on by k shifts the instant by exactly k days, across month and year ends |
| `JsDate.MonthBeforeJanuary` | utils/time.js:84 | month index -1 in the Date constructor means December of the previous year |
| `JsDate.DayZeroIsPreviousMonthEnd` | utils/time.js:85 | day 0 in the Date constructor means the last day of the previous month |
| `JsDate.LocalToEpochAfter` | utils/time.js:41 | the local wall clock k days after today's date is today's local day number plus k at that time of day |
| `JsDate.SetHoursOnLocalDay` | utils/time.js:33 | setHours gives the host's local clock time on the instant's local date (TimeClip'd) |
| `JsDate.LocalToEpochReadBack` | utils/time.js:102-109 | an instant built from a valid local date and a time of day reads back as that date and time of day |
| `HumanTime.NormalizeChinese` | utils/time.js:2-13 | normalizeChinese keeps the text's length |
| `HumanTime.NormalizeChineseChars` | utils/time.js:2-13 | normalizeChinese replaces each of 點後無沒間鐘 by 点后无没间钟, keeps every other character, and leaves none of the six |
| `HumanTime.NormalizeUnchanged` | utils/time.js:12 | a text without the six traditional glyphs is unchanged |
| `HumanTime.NormalizeIdempotent` | utils/time.js:12 | normalising twice is normalising once |
| `HumanTime.Canonical` | utils/time.js:20-21 | the text the branches test: trimmed, lower-cased, normalised; ParseHumanTime parses every non-empty input through it |
| `HumanTime.CanonicalUnchanged` | utils/time.js:20-21 | a text that trim, toLowerCase and normalizeChinese would not touch is its own canonical form |
| `HumanTime.LeadingDigits` | utils/time.js:52 | a group of one or two digits takes the longest digit prefix of at most two |
| `HumanTime.DayWordOfText` | utils/time.js:52 | a recognised day word is the text of that word |
| `HumanTime.TextOfDayWord` | utils/time.js:52 | each day word's text is recognised as that word |
| `HumanTime.PeriodOfText` | utils/time.js:52 | a recognised period word is the text of that word |
| `HumanTime.TextOfPeriod` | utils/time.js:52 | each period word's text is recognised as that word |
| `HumanTime.MatchHourMinute` | utils/time.js:52 | the hour and minute groups matched are one or two digits each (minute after `:` or `点`) and together are the whole rest of the text |
| `HumanTime.MatchAfterPeriod` | utils/time.js:52 | a clock match after the period keeps the day word and period and spells the rest of the text |
| `HumanTime.MatchAfterDay` | utils/time.js:52 | a clock match after the day word spells the rest of the text exactly |
| `HumanTime.MatchClock` | utils/time.js:51-53 | a clock-pattern match is well formed and spells the whole text |
| `HumanTime.HourMinuteComplete` | utils/time.js:52 | every well-formed hour and minute text is matched as itself |
| `HumanTime.MatchAfterDayComplete` | utils/time.js:52 | every well-formed period and clock text after the day word is matched as itself |
| `HumanTime.MatchClockComplete` | utils/time.js:51-53 | every well-formed clock match is what its own text matches: the matcher and ClockText round-trip |
| `HumanTime.LeadingSpace` | utils/time.js:77 | the whitespace run taken is the longest whitespace prefix |
| `HumanTime.MatchTimePart` | utils/time.js:77 | a time-part match spells the text exactly |
| `HumanTime.MatchDayAndTime` | utils/time.js:77 | the day group and optional time part matched are well formed and spell the text |
| `HumanTime.MatchAfterYear` | utils/time.js:77 | after the year and first separator, the month, second separator, day and time matched are well formed and spell the text |
| `HumanTime.MatchDate` | utils/time.js:76-78 | a date-pattern match is well formed and spells the whole text |
| `HumanTime.LeadingSpaceOf` | utils/time.js:77 | a whitespace run followed by a non-space is taken whole |
| `HumanTime.LeadingDigitsOf` | utils/time.js:77 | one or two digits followed by a non-digit are taken whole |
| `HumanTime.MatchTimePartComplete` | utils/time.js:77 | every well-formed time part is matched as itself |
| `HumanTime.SpaceBeforeClock` | utils/time.js:77 | in a time part the whitespace run is taken whole and the clock follows it |
| `HumanTime.ClockAfterSpace` | utils/time.js:77 | in the clock after the whitespace, the hour digits are followed by `:` and the minute |
| `HumanTime.MatchDayAndTimeComplete` | utils/time.js:77 | every well-formed day and optional time is matched as itself |
| `HumanTime.MatchAfterYearComplete` | utils/time.js:77 | every well-formed text after the year is matched as itself |
| `HumanTime.MatchDateComplete` | utils/time.js:76-78 | every well-formed date match is what its own text matches: the matcher and DateText round-trip |
| `HumanTime.ClockTextNotKeyword` | utils/time.js:24-52 | a clock-pattern text is none of the keywords checked before the pattern, so the earlier branches never capture it |
| `HumanTime.ParseHumanTime` | utils/time.js:15-97 | a missing or empty input gives no deadline (null); the call throws exactly for a `今晚` text of the clock pattern |
| `HumanTime.ParseText` | utils/time.js:23-96 | on the canonical text, the branches throw exactly for a `今晚` clock text |
| `HumanTime.ParseHumanTimeCorrected` | utils/time.js:15-97 | the repaired parser never throws |
| `HumanTime.ParseTextCorrected` | utils/time.js:38-73 | the repaired branches never throw |
| `HumanTime.FormatTime` | utils/time.js:99-110 | null gives the dash; a valid timestamp gives a valid date with hour below 24 and minute below 60, the UTC+8 minute that contains it |
| `HumanTime.EndOfDay` | utils/time.js:32-35 | setHours(23, 59, 59, 999); stated by EndOfLaterDay |
| `HumanTime.ClockHour` | utils/time.js:65-68 | the period rule: 下午 or 晚上 add 12 below 12, 中午 adds 12 below 11; its use is stated by ParseClock |
| `HumanTime.TonightHour` | utils/time.js:60 | the evening shift the 今晚 line means to make; stated by ParseTonightCorrected |
| `HumanTime.MinuteOf` | utils/time.js:63 | the minute, 0 when absent; bounded by MinuteOfBound |
| `HumanTime.ClockDate` | utils/time.js:57-59 | the day the clock branch starts from; stated by ClockDateShift |
| `HumanTime.ClockAt` | utils/time.js:70-72 | setHours, the NaN guard and the offset; stated by ClockAtInstant |
| `HumanTime.ClockDeadline` | utils/time.js:55-73 | the clock branch as written, throwing for 今晚; stated by ParseClock and ParseTonightThrows |
| `HumanTime.ClockDeadlineCorrected` | utils/time.js:55-73 | the clock branch with the 今晚 shift made after the declaration; stated by ParseTonightCorrected |
| `HumanTime.MinuteOfDate` | utils/time.js:81 | the date branch's minute, 59 without a time part; stated by DateFieldBounds |
| `HumanTime.DateDeadline` | utils/time.js:80-94 | the date branch: the Date constructor, the NaN guard and the offset; stated by DateDeadlineValue and ParseAbsolute |
| `DeadlineProperties.SetHoursLaterDay` | utils/time.js:33 | setting the clock on an instant k days on gives the wall clock of today's local day plus k |
| `DeadlineProperties.EndOfLaterDay` | utils/time.js:32-35 | the end-of-day helper on an instant k days on is 23:59:59.999 of local day today + k |
| `DeadlineProperties.LaterDayEnd` | utils/time.js:40-42 | moving on k days, then the end-of-day helper, gives 23:59:59.999 of local day today + k |
| `DeadlineProperties.LaterDayDeadline` | utils/time.js:41-42 | the later-day result less the offset is 23:59:59.999 of local day today + k less 8 hours |
| `DeadlineProperties.ParseTomorrow` | utils/time.js:39-43 | every text canonicalising to `明天` gives 23:59:59.999 of tomorrow's local day less 8 hours, month and year ends included |
| `DeadlineProperties.TomorrowText` | utils/time.js:39-43 | `明天` gives 23:59:59.999 of tomorrow's local day less 8 hours |
| `DeadlineProperties.ParseDayAfterTomorrow` | utils/time.js:44-48 | every text canonicalising to `后天` gives 23:59:59.999 of the local day two days on less 8 hours |
| `DeadlineProperties.DayAfterTomorrowText` | utils/time.js:44-48 | `后天` gives 23:59:59.999 of the local day two days on less 8 hours |
| `DeadlineProperties.ParseNoDeadlineWord` | utils/time.js:24-28 | every input whose trimmed, lower-cased, normalised text is `无`, `没有`, `不用`, `none` or `null` means no deadline (null) |
| `DeadlineProperties.ParseToday` | utils/time.js:38 | every text canonicalising to `今天` gives 23:59:59.999 of today's local day with no offset subtracted |
| `DeadlineProperties.TodayText` | utils/time.js:38 | `今天` gives 23:59:59.999 of today's local day, unshifted |
| `DeadlineProperties.ClockDateShift` | utils/time.js:57-59 | the clock branch starts from now, one day on for `明天` |
| `DeadlineProperties.MinuteOfBound` | utils/time.js:63 | the minute is 0 when absent and at most 99 |
| `DeadlineProperties.ClockAtInstant` | utils/time.js:57-72 | for an hour up to 111, the clock branch gives the local wall clock of its day at hour:minute less 8 hours (never the NaN guard) |
| `DeadlineProperties.ClockTextParsed` | utils/time.js:51-73 | a well-formed clock text reaches the clock branch, as written and repaired |
| `DeadlineProperties.ParseClockText` | utils/time.js:51-73 | every input canonicalising to a clock text reaches the clock branch |
| `DeadlineProperties.ParseClock` | utils/time.js:55-72 | a `今天`/`明天` clock text gives its day's local clock at the 24-hour hour its period selects (下午/晚上 +12 below 12, 中午 +12 below 11), minute or 0, less 8 hours |
| `DeadlineProperties.ParseTonightThrows` | utils/time.js:60-62 | every `今晚` clock text throws: the hour is read before its declaration |
| `DeadlineProperties.DateTextParsed` | utils/time.js:76-94 | a well-formed date text reaches the date branch |
| `DeadlineProperties.AbsoluteInRange` | utils/time.js:82-90 | every instant the date pattern can spell (years to 9999, two-digit fields) lies well within the range of time values |
| `DeadlineProperties.DateFieldBounds` | utils/time.js:81-90 | the date fields are at most four and two digits; a missing time defaults to 23:59 |
| `DeadlineProperties.DateDeadlineValue` | utils/time.js:80-93 | the date branch gives the constructed local instant less 8 hours, never the NaN guard |
| `DeadlineProperties.DateDeadlineOfFields` | utils/time.js:80-93 | for fields within their digit bounds the date branch gives the constructed local instant less 8 hours |
| `DeadlineProperties.NewLocalDateInRange` | utils/time.js:82-90 | for fields within their digit bounds the Date constructor gives a time value, not NaN |
| `DeadlineProperties.ParseAbsolute` | utils/time.js:76-93 | every input canonicalising to a date text gives the local instant of its fields at second 59.999 (23:59 without a time), less 8 hours |
| `DeadlineProperties.FormatShowsTaipeiClock` | utils/time.js:99-109 | formatTime of the UTC+8 instant of a valid date and time shows that date, hour and minute |
| `DeadlineProperties.AbsoluteInstantOnUtcHost` | utils/time.js:82-93 | on a UTC host, a valid date less the offset is that date and time on a UTC+8 clock |
| `DeadlineProperties.ParseAbsoluteOnUtcHost` | utils/time.js:76-93 | on a UTC host, a valid date text gives that date and time on a UTC+8 clock |
| `DeadlineProperties.AbsoluteShownOnUtcHost` | utils/time.js:76-109 | on a UTC host, formatTime shows a valid date text's deadline as the written date, hour and minute |
| `DeadlineProperties.ShownAt` | utils/time.js:99-109 | formatTime of a UTC+8 instant at second 59.999 shows its date, hour and minute |
| `Findings.TomorrowMinusToday` | utils/time.js:38-43 | as written, the `明天` deadline lies only 16 hours after the `今天` deadline |
| `Findings.EndOfUtcDayOnTaipeiClock` | utils/time.js:38 | the end of a UTC day, on a UTC+8 clock, is 07:59:59.999 of the next day |
| `Findings.TodayShownOnUtcHost` | utils/time.js:38 | as written, on a UTC host formatTime shows a `今天` deadline as 07:59 of tomorrow |
| `Findings.TodayEndOnUtcHost` | utils/time.js:38 | on a UTC host, the end of today is 07:59:59.999 of tomorrow on a UTC+8 clock |
| `Findings.ParseTodayCorrected` | utils/time.js:38 | repaired, `今天` is 23:59:59.999 of today's local day less 8 hours |
| `Findings.ParseTomorrowCorrected` | utils/time.js:39-43 | the repair leaves `明天` as it was |
| `Findings.TomorrowMinusTodayCorrected` | utils/time.js:38-43 | repaired, the `明天` deadline lies exactly a day after the `今天` deadline |
| `Findings.TodayShownOnUtcHostCorrected` | utils/time.js:38 | repaired, on a UTC host formatTime shows a `今天` deadline as 23:59 of today |
| `Findings.TodayEndOnTaipeiClock` | utils/time.js:38 | on a UTC host, the end of today less 8 hours is 23:59:59.999 of today on a UTC+8 clock |
| `Findings.TonightDeadlineCorrected` | utils/time.js:60-62 | repaired, a `今晚` match gives today's local clock at the hour shifted by 12 when below 12, then the period rule, less 8 hours |
| `Findings.ParseTonightCorrected` | utils/time.js:60-62 | repaired, every `今晚` clock text means today at the evening hour less 8 hours |
| `Findings.TodayClockOnUtcHost` | utils/time.js:57-72 | on a UTC host, today's local clock less 8 hours is that clock on a UTC+8 clock |
| `Findings.TonightShownOnUtcHostCorrected` | utils/time.js:60-62 | repaired, on a UTC host `今晚h点mi` (h below 12, no period) shows as h+12:mi today |
| `SampleTexts.FalsyInputs` | utils/time.js:18 | a missing input and the empty string both give no deadline (null), not unparseable |
| `SampleTexts.TraditionalNone` | utils/time.js:2-28 | the traditional `無` gives no deadline |
| `SampleTexts.CanonicalTraditionalNone` | utils/time.js:12 | `無` canonicalises to `无` |
| `SampleTexts.PaddedUpperNone` | utils/time.js:20-28 | `" NONE "` gives no deadline |
| `SampleTexts.CanonicalPaddedUpperNone` | utils/time.js:20-21 | `" NONE "` canonicalises to `none` |
| `SampleTexts.UnmatchedText` | utils/time.js:96 | any non-empty input whose canonical text is no keyword and matches neither pattern is unparseable (undefined), distinct from null |
| `SampleTexts.UnmatchedCanonical` | utils/time.js:96 | the same for a text that is already canonical, whose conditions can then be checked on the text itself |
| `SampleTexts.BlankInput` | utils/time.js:18-96 | a text of spaces only is not falsy: it trims to the empty text and is unparseable, not null |
| `SampleTexts.BareTonight` | utils/time.js:38-96 | `今晚` alone is unparseable |
| `SampleTexts.DayAfterTomorrowWithClock` | utils/time.js:44-96 | `后天3点` is unparseable: the clock pattern has no `后天` |
| `SampleTexts.TrailingPointWithoutMinutes` | utils/time.js:52 | `明天8点` is unparseable: `点` must be followed by minute digits |
| `SampleTexts.TraditionalDayAfterTomorrow` | utils/time.js:44-48 | `後天` gives 23:59:59.999 two local days on less 8 hours |
| `SampleTexts.CanonicalTraditionalDayAfterTomorrow` | utils/time.js:5 | `後天` canonicalises to `后天` |
| `SampleTexts.TomorrowAfternoon` | utils/time.js:55-72 | `明天下午3` gives 15:00 of tomorrow's local day less 8 hours |
| `SampleTexts.TomorrowAfternoonDeadline` | utils/time.js:57-72 | the clock branch on that match gives 15:00 of tomorrow less 8 hours |
| `SampleTexts.TomorrowAfternoonInstant` | utils/time.js:70 | the local instant of that match at hour 15 is tomorrow's 15:00 |
| `SampleTexts.TomorrowAfternoonFacts` | utils/time.js:51-53 | `明天下午3` is the text of a well-formed clock match |
| `SampleTexts.TomorrowAfternoonFields` | utils/time.js:59-68 | that match is tomorrow, hour 15 after the 下午 shift, minute 0 |
| `SampleTexts.TomorrowAfternoonText` | utils/time.js:52 | the match spells `明天下午3` |
| `SampleTexts.TomorrowAfternoonCanonical` | utils/time.js:20-21 | `明天下午3` is already canonical |
| `Reminder.Due` | utils/reminder.js:12-16 | the WHERE clause: open, dated, not reminded, deadline at most now + 30 minutes; stated by Selected and DueBoundary |
| `Reminder.Selected` | utils/reminder.js:8-16 | the query returns exactly the rows that are open, have a deadline, are not yet reminded and are due by now + 30 minutes |
| `Reminder.MarkReminded` | utils/reminder.js:28-31 | the flag update sets reminded on the rows with that id and changes nothing else |
| `Reminder.Sweep` | utils/reminder.js:19-35 | the loop over the selected rows in order, a failed delivery skipped; stated row by row by SweepAt |
| `Reminder.AfterTick` | utils/reminder.js:17-35 | the table after one tick, unchanged on a query error or no rows; stated by TickAt, RemindedStaysOut and FailedDeliveryStaysDue |
| `Reminder.SweepAt` | utils/reminder.js:19-35 | after the loop over the selected rows, each table row is reminded when it was or when a row with its id was delivered; no other field or row changes |
| `Reminder.TickAt` | utils/reminder.js:17-35 | with distinct ids, a tick sets reminded exactly on the due rows whose delivery succeeded, nothing on a query error, and changes no other field |
| `Reminder.DueBoundary` | utils/reminder.js:15-16 | the bound is inclusive: a deadline exactly 30 minutes away is selected, one a millisecond later is not |
| `Reminder.RemindedStaysOut` | utils/reminder.js:14 | a reminded row stays as it is through a tick, and no later tick at any time selects it |
| `Reminder.FailedDeliveryStaysDue` | utils/reminder.js:32-34 | a failed delivery leaves its row unreminded and due, whatever happens to the other rows |
| `Reminder.TaskTable.constructor` | utils/reminder.js:1 | the `tasks` table handed to startReminder, as it stands |
| `Reminder.TaskTable.Tick` | utils/reminder.js:6-35 | the tick's loop, going on past failures, leaves the table equal to AfterTick of the old table |

## Left out

- Discord: the client, intents, login, the ready log, environment variables and `process.exit`. Replies are tags (`TodoBot.Reply`), not messages. Embed layout and reply strings are not modelled.
- SQLite: tables are sequences of rows. `julianday` is an uninterpreted parameter `julian: string -> Option<real>`, with None for NULL. Where sort keys tie, SQLite's order is unspecified. `ListRows` picks one order, but every contract about listings is relational and holds for any order.
- The schema's 中 default for priority is never used, because the INSERT always passes one of 高/中/低. The default 0 for `done` is modelled.
- IDs parsed beyond 2^53: parseInt returns a double there, which the unbounded integers of the model do not round.
- toLowerCase is modelled on ASCII letters only; every other character is kept. Only two non-ASCII characters lower to ASCII: KELVIN SIGN (U+212A) to `k`, and LATIN CAPITAL LETTER I WITH DOT ABOVE (U+0130) to `i` followed by U+0307, one unit longer. No keyword or pattern contains `k`, `i`, U+212A, U+0130 or U+0307. So a text holding one of them fails every comparison and match either way, and the parser's outcome does not change.
- The host time zone has a fixed offset (`tz`) and no daylight saving time or historical changes. The clock (`Date.now()`, `new Date()`) is the parameter `now`.
- formatTime returns the UTC+8 calendar fields (`Display.Shown(date, hour, minute)`), not the `zh-TW` locale string. The reminder's `toLocaleString` is left out too.
- formatTime takes null or a number. Called with undefined, the unparseable result, it would show `Invalid Date`, as for NaN (`Display.InvalidDate`). The model has no undefined input.
- `setInterval`, the one-minute interval, and async interleaving: one message or one tick is modelled at a time. The reminder's `db.run` write is immediate and assumed to succeed.
- Fetching the user and sending the message are one oracle, `delivered`, consulted with the row's id. A query error is the parameter `queryFailed`.
- `TodoBot.Bot.HandleMessage`: assumes every better-sqlite3 statement succeeds. In index.js a failing `.run()` or `.all()` throws out of the async handler: no reply is sent, the rejection is not handled, and a failing INSERT at index.js:67-68 skips line 72, so the user stays in the priority step. The model has no failing statement.
- `TodoBot.Bot.Insert`: assumes the INSERT succeeds, for the same reason.
- `TodoBot.Bot.constructor`: requires the persisted table to have ascending ids within the AUTOINCREMENT sequence. SQLite guarantees this for a table only ever written through index.js. A database edited by hand is outside the model.
- `Reminder.TickAt`: the row-by-row closed form assumes distinct task ids. The `tasks` schema, its primary key included, is not part of this model. `SweepAt` states the general case.
- TimeClip's NaN results are kept as cases. The lemmas about the parser's branches require `NowInRange(now)` and `HostOffset(tz)`, within which the NaN guards are never reached.

## Findings

| source | as written | input that shows it | evidently intended | confidence | as-written member | corrected member |
|---|---|---|---|---|---|---|
| utils/time.js:38 | `今天` returns the end of the local day without subtracting the 8-hour offset that every other branch subtracts | `今天` on a UTC host: the deadline is 23:59:59.999 UTC, which formatTime shows as 07:59 of the next day; `明天` lies only 16 hours after it | `今天` is 23:59 of today on the UTC+8 clock, a day before `明天` | not executed | `Findings.TomorrowMinusToday`, `Findings.TodayShownOnUtcHost` | `Findings.TomorrowMinusTodayCorrected`, `Findings.TodayShownOnUtcHostCorrected` |
| utils/time.js:60-62 | the `今晚` shift reads `hour` one line before its `let` declaration, a ReferenceError | `今晚8点30` (every `今晚` text of the clock pattern) throws | `今晚8点30` is 20:30 today: an hour below 12 is moved into the evening | not executed | `DeadlineProperties.ParseTonightThrows` | `Findings.ParseTonightCorrected`, `Findings.TonightShownOnUtcHostCorrected` |
