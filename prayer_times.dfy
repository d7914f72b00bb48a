/**
 * The prayer-time classifier of src/lib/api.ts: from the five "HH:MM" clock
 * strings of a day's schedule and the current minute of the day, find the
 * current and the next prayer, label each prayer in Indonesian, and attach a
 * countdown ("Dalam 7 jam 0 menit") to the next prayer.
 */
module PrayerTimes {
  import opened Wrappers
  import opened Text

  /** The five obligatory prayers, as keys of the API's `timings` record. */
  datatype Prayer = Fajr | Dhuhr | Asr | Maghrib | Isha

  /** The prayers in the order of the day (`mainPrayers`). */
  const MainPrayers: seq<Prayer> := [Fajr, Dhuhr, Asr, Maghrib, Isha]

  const MinutesPerDay: int := 24 * 60

  /** The Indonesian display name of each prayer (`prayerNamesIndonesian`). */
  function IndonesianName(p: Prayer): string {
    match p
    case Fajr => "Subuh"
    case Dhuhr => "Zuhur"
    case Asr => "Ashar"
    case Maghrib => "Maghrib"
    case Isha => "Isya"
  }

  /** No two prayers share a display name. */
  lemma IndonesianNameInjective(p: Prayer, q: Prayer)
    ensures IndonesianName(p) == IndonesianName(q) <==> p == q
  {
  }

  /** The part of the API's `timings` record that is read: one "HH:MM" string per prayer. */
  datatype Timings = Timings(fajr: string, dhuhr: string, asr: string, maghrib: string, isha: string) {
    function Of(p: Prayer): string {
      match p
      case Fajr => fajr
      case Dhuhr => dhuhr
      case Asr => asr
      case Maghrib => maghrib
      case Isha => isha
    }
  }

  /**
   * One row of the result (`PrayerTime`). `hasSound` is random in the source;
   * here the caller supplies it.
   */
  datatype PrayerTime = PrayerTime(
    name: string,
    time: string,
    isNext: bool,
    isCurrent: bool,
    hasSound: bool,
    timeUntil: Option<string>)

  /** A two-digit "HH:MM" clock string with hour 0..23 and minute 0..59. */
  predicate WellFormedClock(s: string) {
    && |s| == 5
    && IsDigit(s[0]) && IsDigit(s[1]) && s[2] == ':' && IsDigit(s[3]) && IsDigit(s[4])
    && 10 * DigitValue(s[0]) + DigitValue(s[1]) < 24
    && 10 * DigitValue(s[3]) + DigitValue(s[4]) < 60
  }

  predicate WellFormedTimings(t: Timings) {
    forall p: Prayer :: WellFormedClock(t.Of(p))
  }

  /** `"HH:MM".split(':')` yields the hour digits and the minute digits. */
  lemma SplitClock(s: string)
    requires WellFormedClock(s)
    ensures Split(s, ":") == [s[..2], s[3..]]
  {
    NotInDigits(s[..2], ':');
    NotInDigits(s[3..], ':');
    assert s == s[..2] + ":" + s[3..];
    SplitAt(s[..2], ":", s[3..]);
    SplitNone(s[3..], ":");
  }

  /** `hour.toString().padStart(2, '0')` and the same for the minute, joined by ':'. */
  function FormatClock(hour: nat, minute: nat): string {
    PadStart2(DecimalString(hour)) + ":" + PadStart2(DecimalString(minute))
  }

  /**
   * The hour and minute `parseInt` reads from the two halves of `s.split(':')`.
   * Formatting them again reproduces the input string.
   */
  function ClockParts(s: string): (hm: (nat, nat))
    requires WellFormedClock(s)
    ensures hm.0 < 24 && hm.1 < 60
  {
    SplitClock(s);
    ParseTwoDigits(s[..2]);
    ParseTwoDigits(s[3..]);
    var parts := Split(s, ":");
    (ParseDecimal(parts[0]), ParseDecimal(parts[1]))
  }

  lemma ClockPartsDigits(s: string)
    requires WellFormedClock(s)
    ensures ClockParts(s) == (ParseDecimal(s[..2]), ParseDecimal(s[3..]))
  {
    SplitClock(s);
  }

  /** Formatting the parsed hour and minute reproduces a well-formed clock string. */
  lemma ClockRoundTrip(s: string)
    requires WellFormedClock(s)
    ensures FormatClock(ClockParts(s).0, ClockParts(s).1) == s
  {
    var h, m := s[..2], s[3..];
    assert |h| == 2 && IsDigits(h) && |m| == 2 && IsDigits(m);
    calc {
      FormatClock(ClockParts(s).0, ClockParts(s).1);
      { ClockPartsDigits(s); }
      FormatClock(ParseDecimal(h), ParseDecimal(m));
      PadStart2(DecimalString(ParseDecimal(h))) + ":" + PadStart2(DecimalString(ParseDecimal(m)));
      { TwoDigitsRoundTrip(h); TwoDigitsRoundTrip(m); }
      h + ":" + m;
      { assert s == s[..2] + ":" + s[3..]; }
      s;
    }
  }

  /** Every hour and minute is rendered as a well-formed clock string that reads back as itself. */
  lemma FormatClockRoundTrip(hour: nat, minute: nat)
    requires hour < 24 && minute < 60
    ensures WellFormedClock(FormatClock(hour, minute))
    ensures ClockParts(FormatClock(hour, minute)) == (hour, minute)
  {
    var h := PadStart2(DecimalString(hour));
    var m := PadStart2(DecimalString(minute));
    PaddedDecimalRoundTrip(hour);
    PaddedDecimalRoundTrip(minute);
    ParseTwoDigits(h);
    ParseTwoDigits(m);
    var s := h + ":" + m;
    assert s == FormatClock(hour, minute);
    assert |s| == 5 && s[..2] == h && s[3..] == m;
    assert s[0] == h[0] && s[1] == h[1] && s[2] == ':' && s[3] == m[0] && s[4] == m[1];
    assert WellFormedClock(s);
    ClockPartsDigits(s);
  }

  /** `hour * 60 + minute`: the minute of the day of a clock string. */
  function ClockMinutes(s: string): (m: int)
    requires WellFormedClock(s)
    ensures 0 <= m < MinutesPerDay
  {
    var hm := ClockParts(s);
    hm.0 * 60 + hm.1
  }

  /** The minute of the day of a clock string, read off its four digits. */
  lemma ClockMinutesDigits(s: string)
    requires WellFormedClock(s)
    ensures ClockMinutes(s) == (10 * DigitValue(s[0]) + DigitValue(s[1])) * 60 + 10 * DigitValue(s[3]) + DigitValue(s[4])
  {
    ClockPartsDigits(s);
    ParseTwoDigits(s[..2]);
    ParseTwoDigits(s[3..]);
  }

  /** The minute of the day of each prayer, in the order of `MainPrayers`. */
  function PrayerMinutes(t: Timings): (mins: seq<int>)
    requires WellFormedTimings(t)
    ensures |mins| == |MainPrayers|
    ensures forall i :: 0 <= i < |mins| ==> 0 <= mins[i] < MinutesPerDay
  {
    seq(|MainPrayers|, i requires 0 <= i < |MainPrayers| => ClockMinutes(t.Of(MainPrayers[i])))
  }

  predicate ValidMinutes(mins: seq<int>) {
    |mins| == |MainPrayers| && forall i :: 0 <= i < |mins| ==> 0 <= mins[i] < MinutesPerDay
  }

  /** Each prayer is strictly later in the day than the one before it. */
  predicate StrictlyIncreasing(mins: seq<int>) {
    forall i, j :: 0 <= i < j < |mins| ==> mins[i] < mins[j]
  }

  /** The schedule does not go back in time from one prayer to the next. */
  predicate NonDecreasing(mins: seq<int>) {
    forall i, j :: 0 <= i <= j < |mins| ==> mins[i] <= mins[j]
  }

  /** The last of the first `n` prayers whose time is at or before `now`, or -1. */
  function LastAtOrBefore(mins: seq<int>, now: int, n: nat): (r: int)
    requires n <= |mins|
    ensures -1 <= r < n
    ensures r >= 0 ==> mins[r] <= now
    ensures forall j :: r < j < n ==> mins[j] > now
    decreases n
  {
    if n == 0 then -1
    else if mins[n - 1] <= now then n - 1
    else LastAtOrBefore(mins, now, n - 1)
  }

  /** `currentPrayerIndex`: the most recent prayer whose time has come, or -1 before the first. */
  function CurrentPrayerIndex(mins: seq<int>, now: int): int
    requires ValidMinutes(mins)
  {
    LastAtOrBefore(mins, now, |mins|)
  }

  /**
   * `currentPrayerIndex` is pinned down by the two facts the first pass
   * establishes: the prayer at `k` has come (when `k` is not -1) and none after it has.
   */
  lemma CurrentPrayerIndexIs(mins: seq<int>, now: int, k: int)
    requires ValidMinutes(mins) && -1 <= k < |mins|
    requires k >= 0 ==> mins[k] <= now
    requires forall j :: k < j < |mins| ==> mins[j] > now
    ensures CurrentPrayerIndex(mins, now) == k
  {
  }

  /** `nextPrayerIndex`: Subuh when nothing has passed yet, otherwise the following prayer, cyclically. */
  function NextPrayerIndex(current: int): (next: nat)
    requires -1 <= current < |MainPrayers|
    ensures next < |MainPrayers| && next != current
  {
    if current == -1 then 0 else (current + 1) % |MainPrayers|
  }

  /**
   * `minutesUntil`: from `now` to the next prayer, wrapping past midnight when
   * the current prayer is Isya; the source's second branch is kept as written.
   */
  function MinutesUntilNext(mins: seq<int>, now: int): (r: int)
    requires ValidMinutes(mins) && 0 <= now < MinutesPerDay
    ensures r >= 1
    ensures NonDecreasing(mins) ==> r <= MinutesPerDay
  {
    var current := CurrentPrayerIndex(mins, now);
    var next := NextPrayerIndex(current);
    var nextTime := mins[next];
    if next == 0 && current == |MainPrayers| - 1 then nextTime + (MinutesPerDay - now)
    else if nextTime < now then nextTime + (MinutesPerDay - now)
    else nextTime - now
  }

  /** Counting `MinutesUntilNext` on from `now` lands on the next prayer's minute, modulo a day. */
  lemma CountdownLandsOnNextPrayer(mins: seq<int>, now: int)
    requires ValidMinutes(mins) && 0 <= now < MinutesPerDay
    ensures (now + MinutesUntilNext(mins, now)) % MinutesPerDay == mins[NextPrayerIndex(CurrentPrayerIndex(mins, now))]
  {
    var next := NextPrayerIndex(CurrentPrayerIndex(mins, now));
    var m := mins[next];
    if now + MinutesUntilNext(mins, now) != m {
      assert now + MinutesUntilNext(mins, now) == m + MinutesPerDay;
    }
  }

  /** The countdown template: "Dalam H jam M menit" once an hour or more remains, else "Dalam M menit". */
  function CountdownText(hoursUntil: nat, remainingMinutes: nat): string {
    if hoursUntil > 0 then
      "Dalam " + DecimalString(hoursUntil) + " jam " + DecimalString(remainingMinutes) + " menit"
    else
      "Dalam " + DecimalString(remainingMinutes) + " menit"
  }

  /** The countdown text for `minutesUntil`, split into whole hours and the remaining minutes. */
  function Countdown(minutesUntil: nat): string {
    CountdownText(minutesUntil / 60, minutesUntil % 60)
  }

  /** Reads a countdown text back into minutes; the inverse of `Countdown`. */
  function ReadCountdown(text: string): Option<nat> {
    if |text| < 6 || text[..6] != "Dalam " then None
    else ReadCountdownWords(Split(text[6..], " "))
  }

  /** Reads the words after "Dalam ": "H jam M menit" with H positive, or "M menit", M below 60. */
  function ReadCountdownWords(words: seq<string>): Option<nat> {
    if && |words| == 4 && words[1] == "jam" && words[3] == "menit"
       && IsCanonicalNumeral(words[0]) && IsCanonicalNumeral(words[2])
       && ParseDecimal(words[0]) > 0 && ParseDecimal(words[2]) < 60
    then Some(ParseDecimal(words[0]) * 60 + ParseDecimal(words[2]))
    else if && |words| == 2 && words[1] == "menit"
            && IsCanonicalNumeral(words[0]) && ParseDecimal(words[0]) < 60
    then Some(ParseDecimal(words[0]))
    else None
  }

  /** The words of a countdown text after "Dalam ", separated by single spaces. */
  function CountdownWords(hoursUntil: nat, remainingMinutes: nat): (words: seq<string>)
    ensures |words| >= 1 && forall i :: 0 <= i < |words| ==> ' ' !in words[i]
  {
    var hours := DecimalString(hoursUntil);
    var minutes := DecimalString(remainingMinutes);
    NotInDigits(hours, ' ');
    NotInDigits(minutes, ' ');
    if hoursUntil > 0 then [hours, "jam", minutes, "menit"] else [minutes, "menit"]
  }

  lemma CountdownIsWords(hoursUntil: nat, remainingMinutes: nat)
    ensures CountdownText(hoursUntil, remainingMinutes) == "Dalam " + Join(CountdownWords(hoursUntil, remainingMinutes), " ")
  {
    var hours := DecimalString(hoursUntil);
    var minutes := DecimalString(remainingMinutes);
    var text := CountdownText(hoursUntil, remainingMinutes);
    var words := CountdownWords(hoursUntil, remainingMinutes);
    if hoursUntil > 0 {
      assert words == [hours, "jam", minutes, "menit"];
      JoinFour(hours, "jam", minutes, "menit", " ");
      assert text == "Dalam " + hours + " jam " + minutes + " menit";
      assert " jam " == " " + "jam" + " " && " menit" == " " + "menit";
      assert text == "Dalam " + (hours + " " + "jam" + " " + minutes + " " + "menit");
    } else {
      assert words == [minutes, "menit"] && words[1..] == ["menit"];
      assert text == "Dalam " + minutes + " menit";
      assert " menit" == " " + "menit";
      assert text == "Dalam " + (minutes + " " + "menit");
    }
  }

  /** Whole hours and remaining minutes are recovered from their total. */
  lemma HoursAndMinutes(hours: nat, minutes: nat)
    requires minutes < 60
    ensures (hours * 60 + minutes) / 60 == hours && (hours * 60 + minutes) % 60 == minutes
  {
  }

  /** A whole number of hours still prints its zero minutes: "Dalam 7 jam 0 menit". */
  lemma CountdownWholeHours(minutesUntil: nat)
    requires minutesUntil >= 60 && minutesUntil % 60 == 0
    ensures Countdown(minutesUntil) == "Dalam " + DecimalString(minutesUntil / 60) + " jam 0 menit"
  {
    ZeroMinutesText(minutesUntil / 60);
  }

  lemma ZeroMinutesText(hours: nat)
    requires hours > 0
    ensures CountdownText(hours, 0) == "Dalam " + DecimalString(hours) + " jam 0 menit"
  {
    assert DecimalString(0) == "0";
    assert " jam " + "0" + " menit" == " jam 0 menit";
  }

  /** The countdown text starts with "Dalam " and the rest splits on spaces into its words. */
  lemma CountdownSplit(hours: nat, minutes: nat)
    ensures |CountdownText(hours, minutes)| >= 6 && CountdownText(hours, minutes)[..6] == "Dalam "
    ensures Split(CountdownText(hours, minutes)[6..], " ") == CountdownWords(hours, minutes)
  {
    var words := CountdownWords(hours, minutes);
    var text := CountdownText(hours, minutes);
    CountdownIsWords(hours, minutes);
    assert text[..6] == "Dalam " && text[6..] == Join(words, " ");
    SplitJoin(words, " ");
  }

  /** The countdown words of an hour and a minute read back as `hours * 60 + minutes`. */
  lemma CountdownWordsRoundTrip(hours: nat, minutes: nat)
    requires minutes < 60
    ensures ReadCountdownWords(CountdownWords(hours, minutes)) == Some(hours * 60 + minutes)
  {
    ParseDecimalString(hours);
    ParseDecimalString(minutes);
  }

  /** The template read back gives `hours * 60 + minutes`. */
  lemma CountdownTextRoundTrip(hours: nat, minutes: nat)
    requires minutes < 60
    ensures ReadCountdown(CountdownText(hours, minutes)) == Some(hours * 60 + minutes)
  {
    CountdownSplit(hours, minutes);
    CountdownWordsRoundTrip(hours, minutes);
  }

  /** The countdown text determines the minutes it was made from. */
  lemma CountdownRoundTrip(m: nat)
    ensures ReadCountdown(Countdown(m)) == Some(m)
  {
    CountdownTextRoundTrip(m / 60, m % 60);
  }

  /** Every text that reads as a countdown is exactly the text `Countdown` makes for it. */
  lemma ReadCountdownExact(text: string, m: nat)
    requires ReadCountdown(text) == Some(m)
    ensures Countdown(m) == text
  {
    var rest := text[6..];
    var words := Split(rest, " ");
    JoinSplit(rest, " ");
    assert text == "Dalam " + Join(words, " ");
    if |words| == 4 {
      var hours, minutes := ParseDecimal(words[0]), ParseDecimal(words[2]);
      HoursWords(words);
      CountdownOfWords(m, hours, minutes, words);
    } else {
      var minutes := ParseDecimal(words[0]);
      MinutesWords(words);
      CountdownOfWords(m, 0, minutes, words);
    }
  }

  /** The words "H jam M menit" with canonical numerals are the countdown words of their hour and minute. */
  lemma HoursWords(words: seq<string>)
    requires |words| == 4 && words[1] == "jam" && words[3] == "menit"
    requires IsCanonicalNumeral(words[0]) && IsCanonicalNumeral(words[2]) && ParseDecimal(words[0]) > 0
    ensures CountdownWords(ParseDecimal(words[0]), ParseDecimal(words[2])) == words
  {
    DecimalStringOfParse(words[0]);
    DecimalStringOfParse(words[2]);
  }

  /** The words "M menit" with a canonical numeral are the countdown words of that minute. */
  lemma MinutesWords(words: seq<string>)
    requires |words| == 2 && words[1] == "menit" && IsCanonicalNumeral(words[0])
    ensures CountdownWords(0, ParseDecimal(words[0])) == words
  {
    DecimalStringOfParse(words[0]);
  }

  /** The countdown for `hours * 60 + minutes` is "Dalam " followed by the words of that hour and minute. */
  lemma CountdownOfWords(total: nat, hours: nat, minutes: nat, words: seq<string>)
    requires minutes < 60 && total == hours * 60 + minutes
    requires CountdownWords(hours, minutes) == words
    ensures Countdown(total) == "Dalam " + Join(words, " ")
  {
    HoursAndMinutes(hours, minutes);
    CountdownIsWords(hours, minutes);
  }

  /**
   * The row the second pass pushes for the prayer at `index`, before a
   * countdown is attached. Its time is the prayer's own clock string: the
   * re-formatted hour and minute reproduce it (`ClockRoundTrip`).
   */
  function Row(t: Timings, index: nat, current: int, next: int, sound: bool): PrayerTime
    requires index < |MainPrayers|
  {
    var prayer := MainPrayers[index];
    PrayerTime(IndonesianName(prayer), t.Of(prayer), index == next, index == current, sound, None)
  }

  /**
   * The rows `processPrayerTimes` returns for the timings `t`, whose minutes
   * of the day are `mins`, at minute `now` of the day, given the text it
   * attaches to the next prayer's row.
   */
  function PrayerRows(t: Timings, mins: seq<int>, now: int, sounds: seq<bool>, countdown: string): seq<PrayerTime>
    requires ValidMinutes(mins) && 0 <= now < MinutesPerDay && |sounds| == |MainPrayers|
  {
    var current := CurrentPrayerIndex(mins, now);
    var next := NextPrayerIndex(current);
    seq(|MainPrayers|, i requires 0 <= i < |MainPrayers| =>
      var row := Row(t, i, current, next, sounds[i]);
      if i == next then row.(timeUntil := Some(countdown)) else row)
  }

  /** Writing the countdown into the next prayer's row of the pushed rows gives `PrayerRows`. */
  lemma AttachCountdown(t: Timings, now: int, sounds: seq<bool>, rows: seq<PrayerTime>, current: int, next: nat, text: string)
    requires WellFormedTimings(t) && 0 <= now < MinutesPerDay && |sounds| == |MainPrayers|
    requires current == CurrentPrayerIndex(PrayerMinutes(t), now) && next == NextPrayerIndex(current)
    requires |rows| == |MainPrayers|
    requires forall k :: 0 <= k < |MainPrayers| ==> rows[k] == Row(t, k, current, next, sounds[k])
    ensures rows[next := rows[next].(timeUntil := Some(text))] == PrayerRows(t, PrayerMinutes(t), now, sounds, text)
  {
    var expected := PrayerRows(t, PrayerMinutes(t), now, sounds, text);
    var updated := rows[next := rows[next].(timeUntil := Some(text))];
    forall k | 0 <= k < |MainPrayers| ensures updated[k] == expected[k] {
    }
  }

  /** The first pass of `processPrayerTimes`: remembers the last prayer whose time is at or before `now`. */
  method FindCurrentPrayer(timings: Timings, now: int) returns (currentPrayerIndex: int)
    requires WellFormedTimings(timings) && 0 <= now < MinutesPerDay
    ensures currentPrayerIndex == CurrentPrayerIndex(PrayerMinutes(timings), now)
  {
    ghost var mins := PrayerMinutes(timings);
    currentPrayerIndex := -1;
    for i := 0 to |MainPrayers|
      invariant currentPrayerIndex == LastAtOrBefore(mins, now, i)
    {
      var prayerTimeInMinutes := ClockMinutes(timings.Of(MainPrayers[i]));
      if prayerTimeInMinutes <= now {
        currentPrayerIndex := i;
      }
    }
  }

  /** The second pass of `processPrayerTimes`: pushes one row per prayer, in the order of the day. */
  method ListPrayers(timings: Timings, currentPrayerIndex: int, nextPrayerIndex: int, sounds: seq<bool>)
    returns (prayerTimes: seq<PrayerTime>)
    requires WellFormedTimings(timings) && |sounds| == |MainPrayers|
    ensures |prayerTimes| == |MainPrayers|
    ensures forall k :: 0 <= k < |MainPrayers| ==>
      prayerTimes[k] == Row(timings, k, currentPrayerIndex, nextPrayerIndex, sounds[k])
  {
    prayerTimes := [];
    for index := 0 to |MainPrayers|
      invariant |prayerTimes| == index
      invariant forall k :: 0 <= k < index ==>
        prayerTimes[k] == Row(timings, k, currentPrayerIndex, nextPrayerIndex, sounds[k])
    {
      var prayer := MainPrayers[index];
      var (hour, minute) := ClockParts(timings.Of(prayer));
      var isCurrent := index == currentPrayerIndex;
      var isNext := index == nextPrayerIndex;
      var formattedTime := PadStart2(DecimalString(hour)) + ":" + PadStart2(DecimalString(minute));
      ClockRoundTrip(timings.Of(prayer));
      var entry := PrayerTime(IndonesianName(prayer), formattedTime, isNext, isCurrent, sounds[index], None);
      assert entry == Row(timings, index, currentPrayerIndex, nextPrayerIndex, sounds[index]);
      prayerTimes := prayerTimes + [entry];
    }
  }

  /**
   * `processPrayerTimes`: find the current prayer, list the rows, then write
   * the countdown into the next prayer's row.
   */
  method ProcessPrayerTimes(timings: Timings, now: int, sounds: seq<bool>) returns (prayerTimes: seq<PrayerTime>)
    requires WellFormedTimings(timings) && 0 <= now < MinutesPerDay && |sounds| == |MainPrayers|
    ensures var mins := PrayerMinutes(timings);
      prayerTimes == PrayerRows(timings, mins, now, sounds, Countdown(MinutesUntilNext(mins, now)))
  {
    ghost var mins := PrayerMinutes(timings);
    var currentPrayerIndex := FindCurrentPrayer(timings, now);
    var nextPrayerIndex := if currentPrayerIndex == -1 then 0 else (currentPrayerIndex + 1) % |MainPrayers|;
    prayerTimes := ListPrayers(timings, currentPrayerIndex, nextPrayerIndex, sounds);

    if nextPrayerIndex != -1 {
      var nextTimeInMinutes := ClockMinutes(timings.Of(MainPrayers[nextPrayerIndex]));
      var minutesUntil;
      if nextPrayerIndex == 0 && currentPrayerIndex == |MainPrayers| - 1 {
        minutesUntil := nextTimeInMinutes + (MinutesPerDay - now);
      } else if nextTimeInMinutes < now {
        minutesUntil := nextTimeInMinutes + (MinutesPerDay - now);
      } else {
        minutesUntil := nextTimeInMinutes - now;
      }
      assert minutesUntil == MinutesUntilNext(mins, now);
      var hoursUntil := minutesUntil / 60;
      var remainingMinutes := minutesUntil % 60;
      var timeUntilStr;
      if hoursUntil > 0 {
        timeUntilStr := "Dalam " + DecimalString(hoursUntil) + " jam " + DecimalString(remainingMinutes) + " menit";
      } else {
        timeUntilStr := "Dalam " + DecimalString(remainingMinutes) + " menit";
      }
      assert timeUntilStr == Countdown(minutesUntil);
      AttachCountdown(timings, now, sounds, prayerTimes, currentPrayerIndex, nextPrayerIndex, timeUntilStr);
      prayerTimes := prayerTimes[nextPrayerIndex := prayerTimes[nextPrayerIndex].(timeUntil := Some(timeUntilStr))];
    }
  }

  // Properties of the result of processPrayerTimes.

  /** Five rows in the order of the day, named in Indonesian, each showing its prayer's own clock string. */
  lemma CanonicalRows(t: Timings, mins: seq<int>, now: int, sounds: seq<bool>, countdown: string)
    requires ValidMinutes(mins) && 0 <= now < MinutesPerDay && |sounds| == |MainPrayers|
    ensures var rows := PrayerRows(t, mins, now, sounds, countdown);
      && |rows| == |MainPrayers|
      && forall i :: 0 <= i < |rows| ==>
           && rows[i].name == IndonesianName(MainPrayers[i])
           && rows[i].time == t.Of(MainPrayers[i])
           && rows[i].hasSound == sounds[i]
  {
  }

  /** Exactly one row is the next prayer, at most one is the current prayer, and no row is both. */
  lemma OneNextAtMostOneCurrent(t: Timings, mins: seq<int>, now: int, sounds: seq<bool>, countdown: string)
    requires ValidMinutes(mins) && 0 <= now < MinutesPerDay && |sounds| == |MainPrayers|
    ensures var rows := PrayerRows(t, mins, now, sounds, countdown);
      && (exists i :: 0 <= i < |rows| && rows[i].isNext)
      && (forall i, j :: 0 <= i < |rows| && 0 <= j < |rows| && rows[i].isNext && rows[j].isNext ==> i == j)
      && (forall i, j :: 0 <= i < |rows| && 0 <= j < |rows| && rows[i].isCurrent && rows[j].isCurrent ==> i == j)
      && (forall i :: 0 <= i < |rows| ==> !(rows[i].isCurrent && rows[i].isNext))
  {
    var rows := PrayerRows(t, mins, now, sounds, countdown);
    var next := NextPrayerIndex(CurrentPrayerIndex(mins, now));
    assert rows[next].isNext;
  }

  /**
   * A row is current exactly when its prayer's time has come and no later
   * prayer's time has; no row is current while every prayer is still ahead.
   */
  lemma CurrentIsLatestPassed(t: Timings, mins: seq<int>, now: int, sounds: seq<bool>, countdown: string)
    requires ValidMinutes(mins) && 0 <= now < MinutesPerDay && |sounds| == |MainPrayers|
    ensures var rows := PrayerRows(t, mins, now, sounds, countdown);
      forall i :: 0 <= i < |rows| ==>
        (rows[i].isCurrent <==> mins[i] <= now && forall j :: i < j < |mins| ==> mins[j] > now)
    ensures var rows := PrayerRows(t, mins, now, sounds, countdown);
      (forall i :: 0 <= i < |rows| ==> !rows[i].isCurrent) <==> (forall j :: 0 <= j < |mins| ==> mins[j] > now)
  {
    var rows := PrayerRows(t, mins, now, sounds, countdown);
    var current := CurrentPrayerIndex(mins, now);
    if current >= 0 {
      assert rows[current].isCurrent;
    }
  }

  /** In a non-decreasing schedule the prayers up to the current one have come and the later ones have not. */
  lemma SortedScheduleSplitsAtCurrent(mins: seq<int>, now: int)
    requires ValidMinutes(mins) && NonDecreasing(mins)
    ensures forall j :: 0 <= j < |mins| ==> (mins[j] <= now <==> j <= CurrentPrayerIndex(mins, now))
  {
  }

  /**
   * The source's branch for a next prayer earlier in the day than `now`
   * is never taken: outside the rollover after Isya, the next prayer is still ahead.
   */
  lemma EarlierBranchUnreachable(mins: seq<int>, now: int)
    requires ValidMinutes(mins) && 0 <= now < MinutesPerDay
    ensures var current := CurrentPrayerIndex(mins, now);
      var next := NextPrayerIndex(current);
      !(next == 0 && current == |MainPrayers| - 1) ==> mins[next] > now
  {
  }

  /** Only the next prayer's row carries a countdown, and it carries the one given. */
  lemma CountdownOnlyOnNext(t: Timings, mins: seq<int>, now: int, sounds: seq<bool>, countdown: string)
    requires ValidMinutes(mins) && 0 <= now < MinutesPerDay && |sounds| == |MainPrayers|
    ensures var rows := PrayerRows(t, mins, now, sounds, countdown);
      forall i :: 0 <= i < |rows| ==>
        (rows[i].timeUntil.Some? <==> rows[i].isNext) && (rows[i].isNext ==> rows[i].timeUntil == Some(countdown))
  {
  }

  /** When Isya is the current prayer, Subuh is next and the countdown runs past midnight. */
  lemma IshaRollsOverToSubuh(t: Timings, mins: seq<int>, now: int, sounds: seq<bool>, countdown: string)
    requires ValidMinutes(mins) && 0 <= now < MinutesPerDay && |sounds| == |MainPrayers|
    requires PrayerRows(t, mins, now, sounds, countdown)[4].isCurrent
    ensures PrayerRows(t, mins, now, sounds, countdown)[0].isNext
    ensures MinutesUntilNext(mins, now) == mins[0] + MinutesPerDay - now
  {
  }

  /**
   * In a strictly increasing schedule a prayer becomes current at its own
   * minute (the bound is inclusive) and the prayer after it becomes next.
   */
  lemma PrayerBeginsAtItsTime(t: Timings, mins: seq<int>, sounds: seq<bool>, countdown: string, i: nat)
    requires ValidMinutes(mins) && |sounds| == |MainPrayers| && i < |MainPrayers|
    requires StrictlyIncreasing(mins)
    ensures var rows := PrayerRows(t, mins, mins[i], sounds, countdown);
      && rows[i].isCurrent
      && (forall j :: 0 <= j < |rows| && j != i ==> !rows[j].isCurrent)
      && rows[NextPrayerIndex(i)].isNext
  {
    assert CurrentPrayerIndex(mins, mins[i]) == i;
  }

  /**
   * In a strictly increasing schedule it is the previous prayer that is
   * current during the minute before a prayer's time.
   */
  lemma PreviousPrayerCurrentJustBefore(t: Timings, mins: seq<int>, sounds: seq<bool>, countdown: string, i: nat)
    requires ValidMinutes(mins) && |sounds| == |MainPrayers| && 0 < i < |MainPrayers|
    requires StrictlyIncreasing(mins)
    ensures mins[i - 1] < mins[i]
    ensures var rows := PrayerRows(t, mins, mins[i] - 1, sounds, countdown);
      rows[i - 1].isCurrent && !rows[i].isCurrent
  {
    assert mins[i - 1] < mins[i];
    assert CurrentPrayerIndex(mins, mins[i] - 1) == i - 1;
  }
}
