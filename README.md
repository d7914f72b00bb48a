# waktusolat.id prayer-time core in Dafny

waktusolat.id is a small web app that shows the day's five obligatory prayer
times for an Indonesian city. It marks the prayer whose time has most recently
come as *current* and the one after it as *next*. It also shows a countdown in
Indonesian ("Dalam 1 jam 14 menit", "in 1 hour 14 minutes") and the date in
Indonesian ("Sabtu, 19 Juli 2025"). This project models the app's logic and
proves properties of it:

- `prayer_times.dfy` (module `PrayerTimes`) models `processPrayerTimes` of
  `src/lib/api.ts` and the `prayerNamesIndonesian` table. It is imperative
  like its source, split into three methods:
  - `FindCurrentPrayer` is the first pass, a loop over the five prayers.
  - `ListPrayers` is the second pass, which pushes the five rows.
  - `ProcessPrayerTimes` computes the next prayer and the minutes until it,
    renders the countdown, and writes it into the next prayer's row in place.

  Each method is proved against pure specification functions:
  `CurrentPrayerIndex`, `NextPrayerIndex`, `MinutesUntilNext`, `Countdown`,
  `Row` and `PrayerRows`. The lemmas about those functions state what the
  rows mean.
- `mock_prayer_times.dfy` (module `MockSchedule`) models the fallback rows of
  `getMockPrayerTimes`. Its timings are used to pin down the classifier's
  output at chosen minutes of the day.
- `date_label.dfy` (module `DateLabel`) models `formatTanggalIndoFromApi` of
  `src/lib/date.ts` as a pure function. It also defines an independent reader
  `ReadLabel` as the formatter's inverse.
- `text.dfy` (module `Text`) models the few JavaScript string operations the
  code relies on:
  - `parseInt(s, 10)` on digit strings;
  - `Number.prototype.toString`;
  - `padStart(2, '0')`;
  - `String.prototype.split`, with `Join` as its inverse.
- `wrappers.dfy` holds the `Option` type.

Modelling choices:

- The time of day is an integer minute, 0..1439. The source instead reads
  `getHours()` and `getMinutes()` from a `Date`.
- The `hasSound` flag of each row is random in the source. Here the caller
  supplies it as a list of five booleans.
- Timings are well-formed "HH:MM" strings, with hour 0..23 and minute 0..59.

The model follows the code as written:

- There is no sunrise bound on Subuh's window.
- After Isya, Isya stays the current prayer until midnight. Subuh is next, and
  the countdown runs past midnight (`AfterIshaCountsToSubuh`).
- Before Subuh no prayer is current (`BeforeSubuhNothingCurrent`).
- Once an hour or more remains, the countdown always prints its minutes, even
  when they are zero: "Dalam 7 jam 0 menit" (`CountdownWholeHours`).
- Minutes are counted exactly. Nothing is rounded and there is no error path.

## Model

| member | source | states |
|---|---|---|
| PrayerTimes.FindCurrentPrayer | src/lib/api.ts:137-151 | the first-pass loop returns the index of the last prayer whose time is at or before now, or -1 |
| PrayerTimes.ListPrayers | src/lib/api.ts:157-178 | the second pass pushes exactly five rows; row i has prayer i's Indonesian name, its own clock string, the given sound flag, isCurrent iff i is the current index, isNext iff i is the next index, and no countdown |
| PrayerTimes.ProcessPrayerTimes | src/lib/api.ts:122-217 | the result is exactly PrayerRows: the listed rows with the countdown for MinutesUntilNext written into the next prayer's row |
| PrayerTimes.AttachCountdown | src/lib/api.ts:213 | writing the countdown into the next row of the pushed rows gives PrayerRows |
| PrayerTimes.CurrentPrayerIndex | src/lib/api.ts:137-151 | `currentPrayerIndex`, defined as LastAtOrBefore over all five prayers; its meaning is stated by CurrentPrayerIndexIs and CurrentIsLatestPassed |
| PrayerTimes.LastAtOrBefore | src/lib/api.ts:137-151 | the result is -1 or an index among the first n whose time is at or before now, and every later index among the first n is after now |
| PrayerTimes.CurrentPrayerIndexIs | src/lib/api.ts:137-151 | the current index is the unique k such that prayer k (when k is not -1) has come and no later prayer has |
| PrayerTimes.CurrentIsLatestPassed | src/lib/api.ts:137-151 | a row is current iff its time is at or before now and every later prayer's time is after now; no row is current iff every prayer is still ahead |
| PrayerTimes.SortedScheduleSplitsAtCurrent | src/lib/api.ts:137-151 | in a non-decreasing schedule, prayer j has come iff j is at or before the current index |
| PrayerTimes.NextPrayerIndex | src/lib/api.ts:154 | the next index is in 0..4 and differs from the current index |
| PrayerTimes.OneNextAtMostOneCurrent | src/lib/api.ts:154-166 | exactly one row is next, at most one row is current, and no row is both |
| PrayerTimes.MinutesUntilNext | src/lib/api.ts:181-199 | the minutes until the next prayer are at least 1, and at most 1440 when the schedule is non-decreasing |
| PrayerTimes.EarlierBranchUnreachable | src/lib/api.ts:193-196 | outside the rollover after Isya the next prayer's time is after now, so the "next earlier than now" branch is never taken |
| PrayerTimes.IshaRollsOverToSubuh | src/lib/api.ts:188-192 | when Isya is current, Subuh is next and the countdown is Subuh's minute + 1440 - now |
| PrayerTimes.CountdownLandsOnNextPrayer | src/lib/api.ts:181-199 | now plus the minutes until the next prayer lands on the next prayer's minute of the day, modulo 1440 |
| PrayerTimes.CountdownOnlyOnNext | src/lib/api.ts:171-213 | a row carries a countdown iff it is the next row, and that countdown is the given text |
| PrayerTimes.CanonicalRows | src/lib/api.ts:157-177 | five rows in the order Subuh, Zuhur, Ashar, Maghrib, Isya, each showing its own prayer's clock string and sound flag |
| PrayerTimes.PrayerBeginsAtItsTime | src/lib/api.ts:146-150 | in a strictly increasing schedule, at prayer i's own minute row i is current (inclusive bound), no other row is current, and the following prayer is next |
| PrayerTimes.PreviousPrayerCurrentJustBefore | src/lib/api.ts:146-150 | in a strictly increasing schedule, one minute before prayer i the previous prayer is current and prayer i is not |
| PrayerTimes.IndonesianName | src/lib/api.ts:77-83 | the `prayerNamesIndonesian` table; IndonesianNameInjective and CanonicalRows state its use |
| PrayerTimes.IndonesianNameInjective | src/lib/api.ts:77-83 | two prayers have the same Indonesian name iff they are the same prayer |
| PrayerTimes.Row | src/lib/api.ts:157-177 | the row pushed for one prayer; ListPrayers and ClockRoundTrip show it is what the loop body builds |
| PrayerTimes.PrayerRows | src/lib/api.ts:157-213 | the closed form of the result; CanonicalRows, OneNextAtMostOneCurrent, CurrentIsLatestPassed and CountdownOnlyOnNext state its properties |
| PrayerTimes.FormatClock | src/lib/api.ts:169 | the padded `HH:MM` template; ClockRoundTrip and FormatClockRoundTrip make it the inverse of ClockParts |
| PrayerTimes.SplitClock | src/lib/api.ts:142 | splitting a well-formed "HH:MM" on ':' gives the hour digits and the minute digits |
| PrayerTimes.ClockParts | src/lib/api.ts:142-145 | the parsed hour is below 24 and the parsed minute below 60 |
| PrayerTimes.ClockPartsDigits | src/lib/api.ts:143-145 | the hour and minute read are the values of the two digits before ':' and the two after it |
| PrayerTimes.ClockMinutes | src/lib/api.ts:146 | a clock string's minute of the day is in 0..1439 |
| PrayerTimes.ClockMinutesDigits | src/lib/api.ts:142-146 | a clock string's minute of the day is (10*H1+H2)*60 + 10*M1+M2 from its four digits |
| PrayerTimes.PrayerMinutes | src/lib/api.ts:138-146 | the five prayers' minutes of the day, each in 0..1439 |
| PrayerTimes.ClockRoundTrip | src/lib/api.ts:160-169 | re-formatting the parsed hour and minute, zero-padded and joined by ':', reproduces the input clock string |
| PrayerTimes.FormatClockRoundTrip | src/lib/api.ts:169 | every hour 0..23 and minute 0..59 formats to a well-formed clock string that parses back to the same hour and minute |
| PrayerTimes.HoursAndMinutes | src/lib/api.ts:201-202 | hoursUntil*60 + remainingMinutes with remainingMinutes < 60 splits back into the same hours and minutes |
| PrayerTimes.CountdownText | src/lib/api.ts:205-210 | the two countdown templates; CountdownIsWords, CountdownTextRoundTrip and CountdownWholeHours state what they print |
| PrayerTimes.Countdown | src/lib/api.ts:201-210 | the countdown for a number of minutes; CountdownRoundTrip and ReadCountdownExact prove it is exactly the text the reader ReadCountdown maps back to those minutes |
| PrayerTimes.CountdownWords | src/lib/api.ts:205-210 | the words after "Dalam " contain no spaces |
| PrayerTimes.CountdownIsWords | src/lib/api.ts:205-210 | the countdown text is "Dalam " followed by its words joined with single spaces |
| PrayerTimes.CountdownSplit | src/lib/api.ts:205-210 | the countdown text starts with "Dalam " and the rest splits on spaces into exactly its words |
| PrayerTimes.CountdownWordsRoundTrip | src/lib/api.ts:201-210 | the countdown words of an hour and a minute below 60 read back as hours*60 + minutes |
| PrayerTimes.HoursWords | src/lib/api.ts:207 | any "H jam M menit" words with canonical numerals and H positive are the words the template writes for H and M |
| PrayerTimes.MinutesWords | src/lib/api.ts:209 | any "M menit" words with a canonical numeral are the words the template writes for M |
| PrayerTimes.CountdownOfWords | src/lib/api.ts:201-210 | the countdown for hours*60 + minutes is "Dalam " followed by the words of those hours and minutes |
| PrayerTimes.CountdownTextRoundTrip | src/lib/api.ts:201-210 | reading the template back gives hours*60 + minutes |
| PrayerTimes.CountdownRoundTrip | src/lib/api.ts:201-210 | the countdown text determines the minutes it was made from: ReadCountdown(Countdown(m)) == Some(m) |
| PrayerTimes.ReadCountdownExact | src/lib/api.ts:201-210 | every text that reads as m minutes is exactly Countdown(m) |
| PrayerTimes.CountdownWholeHours | src/lib/api.ts:205-207 | a whole number of hours renders as "Dalam H jam 0 menit": the minutes part is never dropped |
| PrayerTimes.ZeroMinutesText | src/lib/api.ts:207 | the hours template with zero remaining minutes ends in " jam 0 menit" |
| MockSchedule.MockPrayerTimes | src/lib/api.ts:223-231 | the five fallback rows; MockFlagsMatchMaghrib and MockCountdownUnreachable relate them to the classifier |
| MockSchedule.MockTimingsWellFormed | src/lib/api.ts:225-229 | the fallback rows' clock strings are well-formed "HH:MM" |
| MockSchedule.MockClockMinutes | src/lib/api.ts:225-229 | the fallback clock strings fall at minutes 283, 719, 921, 1073 and 1147 |
| MockSchedule.MockMinutes | src/lib/api.ts:223-231 | the fallback timings are well formed and their minutes of the day are 283, 719, 921, 1073, 1147 |
| MockSchedule.MockFlagsMatchMaghrib | src/lib/api.ts:223-231 | from 17:53 to 19:06 the classifier's rows for the fallback timings and sounds are exactly the fallback rows, except for the countdown text |
| MockSchedule.MockCountdownIs75 | src/lib/api.ts:229 | the fallback countdown text is the countdown for 75 minutes and for no other number of minutes |
| MockSchedule.MockCountdownUnreachable | src/lib/api.ts:223-231 | at no minute of the day does the classifier produce the fallback rows, because while Maghrib is current Isya is at most 74 minutes away |
| MockSchedule.BeforeSubuhNothingCurrent | src/lib/api.ts:137-154 | at 03:00 no row is current, Subuh is next and its countdown is "Dalam 1 jam 43 menit" |
| MockSchedule.AfterSubuhCountsToZuhur | src/lib/api.ts:137-210 | at 05:00 Subuh is current and Zuhur is next with "Dalam 6 jam 59 menit" |
| MockSchedule.AfterIshaCountsToSubuh | src/lib/api.ts:188-213 | at 20:00 Isya is current and Subuh is next with "Dalam 8 jam 43 menit", counted to the next day |
| MockSchedule.LastHourMinutesOnly | src/lib/api.ts:208-210 | at 19:00 Maghrib is current and Isya is next with "Dalam 7 menit" |
| DateLabel.FormatTanggalIndo | src/lib/date.ts:5-15 | `formatTanggalIndoFromApi`; FormatOfParts gives its output field by field, LabelRoundTrip proves ReadLabel inverts it, SabtuExample checks the documented example |
| DateLabel.MonthName | src/lib/date.ts:12-13 | `months[month - 1]`; MonthNameInjective and MonthNumberOfName make MonthNumber its inverse |
| DateLabel.MonthNamesDistinct | src/lib/date.ts:8-11 | there are twelve month names, each a word of letters, no two alike |
| DateLabel.MonthNameInjective | src/lib/date.ts:12-13 | two month numbers in 1..12 have the same name iff they are equal |
| DateLabel.MonthNumberFrom | src/lib/date.ts:8-13 | a found month number names the searched name; none is found only when no month from there on has that name |
| DateLabel.MonthNumber | src/lib/date.ts:8-13 | the month number found for a name is in 1..12 and has that name; none is found only for a name outside the table |
| DateLabel.MonthNumberOfName | src/lib/date.ts:12-13 | each month's name leads back to its number |
| DateLabel.DayNumber | src/lib/date.ts:14 | the printed day is a canonical numeral of the same value, and a day already canonical is printed unchanged |
| DateLabel.DayLeadingZeroStripped | src/lib/date.ts:14 | a two-digit day with a leading zero loses it: "07" prints as "7" |
| DateLabel.SplitTanggal | src/lib/date.ts:6 | splitting the date text on ", " gives the weekday and the date part |
| DateLabel.SplitDatePart | src/lib/date.ts:7 | splitting "DD/MM/YYYY" on "/" gives the day, the month and the year |
| DateLabel.FormatOfParts | src/lib/date.ts:5-15 | the label is weekday + ", " + the de-padded day + " " + the month's name + " " + year, with weekday and year copied unchanged |
| DateLabel.SplitLabel | src/lib/date.ts:14 | a label splits on ", " and then on " " into weekday, day, month name and year |
| DateLabel.LabelRoundTrip | src/lib/date.ts:5-15 | reading the label back gives the weekday, the day's value, the month number and the year |
| DateLabel.CanonicalDayKept | src/lib/date.ts:14 | a day numeral without leading zeros is printed unchanged |
| DateLabel.SabtuExample | src/lib/date.ts:3 | the documented example: "Sabtu, 19/07/2025" is accepted and formats to "Sabtu, 19 Juli 2025" |
| Text.DigitValue | src/lib/api.ts:144-145 | a digit's value is below 10 |
| Text.DigitChar | src/lib/api.ts:169 | the character written for a value below 10 is a digit with that value |
| Text.ParseDecimal | src/lib/api.ts:144-145 | `parseInt(s, 10)` on digit strings; ParseDecimalString and DecimalStringOfParse make it the inverse of DecimalString |
| Text.DecimalString | src/lib/api.ts:169 | `toString` writes a non-empty run of digits that starts with '0' only for zero |
| Text.ParseDecimalString | src/lib/api.ts:169 | `parseInt` reads back the number `toString` wrote |
| Text.ParseDecimalPositive | src/lib/date.ts:14 | a numeral that does not start with '0' reads as at least 1 |
| Text.DecimalStringOfParse | src/lib/date.ts:14 | a numeral without leading zeros is written back unchanged after parsing |
| Text.PadStart2 | src/lib/api.ts:169 | `padStart(2, '0')` gives length max(2, len), ends with the input, and fills the front with zeros |
| Text.ParseTwoDigits | src/lib/api.ts:144-145 | two digits read as 10*first + second |
| Text.TwoDigitsRoundTrip | src/lib/api.ts:160-169 | two digits parsed, written and padded again are the same two digits |
| Text.PaddedDecimalRoundTrip | src/lib/api.ts:169 | a number below 100 padded to two digits parses back to itself |
| Text.FindFrom | src/lib/date.ts:6 | the position found is an occurrence of the separator with none before it; no position is found only when there is no occurrence |
| Text.Split | src/lib/date.ts:6-7 | split always gives at least one part |
| Text.JoinSplit | src/lib/date.ts:6-7 | joining the parts of a split with the separator gives back the string |
| Text.SplitJoin | src/lib/date.ts:6-7 | splitting a join of parts in which the separator cannot start gives back the parts |
| Text.SplitNone | src/lib/date.ts:6-7 | a string in which the separator cannot start is a single part |
| Text.SplitAt | src/lib/date.ts:6-7 | the first separator after a separator-free prefix ends the first part |

## Left out

- `fetchPrayerTimes` (src/lib/api.ts:91-114) is not part of this model. It is
  network I/O: the HTTP request, JSON decoding, `console.error`, and the
  fallback to the mock rows on any failure.
- `getLocationInfo` (src/lib/api.ts:237-245) returns hard-coded values and has
  no logic.
- The `PrayerTimesResponse` interface is only a data shape. Only its
  `timings` record is modelled, as `Timings`.
- The build and PWA configuration is not part of this model.
- `Math.random() > 0.5` for `hasSound` is an input. The model does not
  generate it.
- `Date.getHours()`/`getMinutes()`: the current time is an input minute
  0..1439. Time zones and seconds are not modelled.
- PrayerTimes.ProcessPrayerTimes: requires well-formed "HH:MM" timings, so
  `parseInt`'s leniency (NaN, trailing characters, signs, whitespace) is not
  modelled. The source does not check the timings either.
- PrayerTimes.ProcessPrayerTimes: line 184 reads the next prayer's time with
  `Number` instead of `parseInt`. The two agree on well-formed "HH:MM"
  strings, so the model reads both with `ClockMinutes`.
- PrayerTimes.Countdown: takes a non-negative number of minutes.
  JavaScript's `%` on negative numbers is not modelled, since
  `MinutesUntilNext` is always at least 1.
- DateLabel.FormatTanggalIndo: requires a date text with a ", " and at least
  three "/"-separated fields, the day and the month numerals and the month
  1..12. The source's behaviour on other input is not modelled: a thrown
  `TypeError` when there is no ", ", and "NaN" or "undefined" in the label.
- DateLabel.FormatOfParts and DateLabel.LabelRoundTrip: stated for weekdays
  without ',' and years without ',' or '/' (and, for the round trip, without
  ' '). For other input the source's split would read the fields differently.
- Text.ParseDecimal: models `parseInt(s, 10)` on digit strings only. Leading
  whitespace, signs and trailing characters are not modelled.
- Text.ParseDecimal and Text.DecimalString: numbers are unbounded integers.
  JavaScript numbers are doubles, so for values above 2^53 `parseInt`
  rounds, and `toString` prints the rounded value, in exponent form from
  1e21. This only matters for DateLabel.DayNumber, whose day numeral may
  have any length: "12345678901234567890" is printed unchanged by the
  model but as "12345678901234567000" by the source. Clock fields and
  countdowns stay below 2^53.
- The fallback rows (`getMockPrayerTimes`) are a constant. The model states
  how they relate to the classifier but does not model when the app shows them.
