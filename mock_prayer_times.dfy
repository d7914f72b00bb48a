/**
 * The fallback schedule of src/lib/api.ts (`getMockPrayerTimes`): five fixed
 * rows shown when the prayer-time API cannot be reached. The timings behind
 * those rows are also used to pin down what the classifier does at chosen
 * minutes of the day.
 */
module MockSchedule {
  import opened Wrappers
  import opened Text
  import opened PrayerTimes

  /** The clock strings of the fallback rows. */
  const MockTimings := Timings("04:43", "11:59", "15:21", "17:53", "19:07")

  /** The sound flags of the fallback rows. */
  const MockSounds := [true, false, true, false, true]

  /** `getMockPrayerTimes`: Maghrib current, Isya next, with a fixed countdown. */
  function MockPrayerTimes(): seq<PrayerTime> {
    [ PrayerTime("Subuh", "04:43", false, false, true, None),
      PrayerTime("Zuhur", "11:59", false, false, false, None),
      PrayerTime("Ashar", "15:21", false, false, true, None),
      PrayerTime("Maghrib", "17:53", false, true, false, None),
      PrayerTime("Isya", "19:07", true, false, true, Some("Dalam 1 jam 15 menit")) ]
  }

  /**
   * The minutes of the day of the fallback timings (`MockMinutes` proves it);
   * the scenario lemmas below are stated over these minutes.
   */
  const MockMinutesOfDay: seq<int> := [283, 719, 921, 1073, 1147]

  /** Every fallback clock string is a well-formed "HH:MM". */
  lemma MockTimingsWellFormed()
    ensures WellFormedTimings(MockTimings)
  {
    forall p: Prayer ensures WellFormedClock(MockTimings.Of(p)) {
      var s := MockTimings.Of(p);
      assert IsDigit(s[0]) && IsDigit(s[1]) && IsDigit(s[3]) && IsDigit(s[4]);
    }
  }

  /** The minute of the day of the `i`-th fallback clock string. */
  lemma MockClockMinutes(i: nat)
    requires i < |MainPrayers|
    ensures WellFormedTimings(MockTimings)
    ensures ClockMinutes(MockTimings.Of(MainPrayers[i])) == MockMinutesOfDay[i]
  {
    MockTimingsWellFormed();
    var s := MockTimings.Of(MainPrayers[i]);
    ClockMinutesDigits(s);
    if i == 0 {
      assert s == "04:43";
    } else if i == 1 {
      assert s == "11:59";
    } else if i == 2 {
      assert s == "15:21";
    } else if i == 3 {
      assert s == "17:53";
    } else {
      assert s == "19:07";
    }
  }

  /** The fallback timings are well formed and fall at these minutes of the day. */
  lemma MockMinutes()
    ensures WellFormedTimings(MockTimings)
    ensures PrayerMinutes(MockTimings) == MockMinutesOfDay
  {
    MockTimingsWellFormed();
    var mins := PrayerMinutes(MockTimings);
    forall i | 0 <= i < |MainPrayers| ensures mins[i] == MockMinutesOfDay[i] {
      MockClockMinutes(i);
    }
  }

  /**
   * The fallback rows are the classifier's rows for their own timings at
   * every minute from Maghrib until Isya, apart from the countdown text.
   */
  lemma MockFlagsMatchMaghrib(now: int, countdown: string)
    requires 1073 <= now < 1147
    ensures PrayerRows(MockTimings, MockMinutesOfDay, now, MockSounds, countdown)
         == MockPrayerTimes()[4 := MockPrayerTimes()[4].(timeUntil := Some(countdown))]
  {
    var mins := MockMinutesOfDay;
    CurrentPrayerIndexIs(mins, now, 3);
    var rows := PrayerRows(MockTimings, mins, now, MockSounds, countdown);
    var expected := MockPrayerTimes()[4 := MockPrayerTimes()[4].(timeUntil := Some(countdown))];
    forall i | 0 <= i < |MainPrayers| ensures rows[i] == expected[i] {
    }
  }

  /** The fallback countdown "Dalam 1 jam 15 menit" is the countdown for 75 minutes, and only for 75. */
  lemma MockCountdownIs75(m: nat)
    ensures MockPrayerTimes()[4].timeUntil == Some(Countdown(75))
    ensures Countdown(m) == Countdown(75) ==> m == 75
  {
    assert DecimalString(1) == "1" && DecimalString(15) == "15";
    assert Countdown(75) == "Dalam 1 jam 15 menit";
    CountdownRoundTrip(m);
    CountdownRoundTrip(75);
  }

  /**
   * No minute of the day makes the classifier produce the fallback rows: the
   * rows mark Maghrib current, and while Maghrib is current Isya is at most
   * 74 minutes away, never "Dalam 1 jam 15 menit".
   */
  lemma MockCountdownUnreachable(now: int, sounds: seq<bool>)
    requires 0 <= now < MinutesPerDay && |sounds| == |MainPrayers|
    ensures var mins := MockMinutesOfDay;
      PrayerRows(MockTimings, mins, now, sounds, Countdown(MinutesUntilNext(mins, now))) != MockPrayerTimes()
  {
    var mins := MockMinutesOfDay;
    var m := MinutesUntilNext(mins, now);
    var rows := PrayerRows(MockTimings, mins, now, sounds, Countdown(m));
    if rows[3].isCurrent {
      CurrentPrayerIndexIs(mins, now, 3);
      assert m <= 74;
      MockCountdownIs75(m);
      assert rows[4].timeUntil != MockPrayerTimes()[4].timeUntil;
    } else {
      assert rows[3] != MockPrayerTimes()[3];
    }
  }

  /** Before Subuh no prayer is current, Subuh is next and the countdown runs to it (03:00). */
  lemma BeforeSubuhNothingCurrent()
    ensures var mins := MockMinutesOfDay;
      var rows := PrayerRows(MockTimings, mins, 180, MockSounds, Countdown(MinutesUntilNext(mins, 180)));
      && (forall i :: 0 <= i < |rows| ==> !rows[i].isCurrent)
      && rows[0].isNext
      && rows[0].timeUntil == Some("Dalam 1 jam 43 menit")
  {
    var mins := MockMinutesOfDay;
    CurrentPrayerIndexIs(mins, 180, -1);
    assert MinutesUntilNext(mins, 180) == 103;
    assert DecimalString(1) == "1" && DecimalString(43) == "43";
    assert Countdown(103) == "Dalam " + "1" + " jam " + "43" + " menit";
    var rows := PrayerRows(MockTimings, mins, 180, MockSounds, Countdown(MinutesUntilNext(mins, 180)));
    assert rows[0].isNext;
    assert forall i :: 0 <= i < |rows| ==> !rows[i].isCurrent;
    assert rows[0].timeUntil == Some(Countdown(103));
    assert Countdown(103) == "Dalam 1 jam 43 menit";
  }

  /** Just after Subuh, Subuh is current and the hours-and-minutes countdown runs to Zuhur (05:00). */
  lemma AfterSubuhCountsToZuhur()
    ensures var mins := MockMinutesOfDay;
      var rows := PrayerRows(MockTimings, mins, 300, MockSounds, Countdown(MinutesUntilNext(mins, 300)));
      && rows[0].isCurrent && !rows[1].isCurrent
      && rows[1].isNext
      && rows[1].timeUntil == Some("Dalam 6 jam 59 menit")
  {
    var mins := MockMinutesOfDay;
    CurrentPrayerIndexIs(mins, 300, 0);
    assert MinutesUntilNext(mins, 300) == 419;
    assert DecimalString(6) == "6" && DecimalString(59) == "59";
    assert Countdown(419) == "Dalam " + "6" + " jam " + "59" + " menit";
    var rows := PrayerRows(MockTimings, mins, 300, MockSounds, Countdown(MinutesUntilNext(mins, 300)));
    assert rows[0].isCurrent && !rows[1].isCurrent && rows[1].isNext;
    assert rows[1].timeUntil == Some(Countdown(419));
    assert Countdown(419) == "Dalam 6 jam 59 menit";
  }

  /** After Isya, Isya stays current and the countdown runs past midnight to Subuh (20:00). */
  lemma AfterIshaCountsToSubuh()
    ensures var mins := MockMinutesOfDay;
      var rows := PrayerRows(MockTimings, mins, 1200, MockSounds, Countdown(MinutesUntilNext(mins, 1200)));
      && rows[4].isCurrent
      && rows[0].isNext
      && rows[0].timeUntil == Some("Dalam 8 jam 43 menit")
  {
    var mins := MockMinutesOfDay;
    CurrentPrayerIndexIs(mins, 1200, 4);
    assert MinutesUntilNext(mins, 1200) == 523;
    assert DecimalString(8) == "8" && DecimalString(43) == "43";
    assert Countdown(523) == "Dalam " + "8" + " jam " + "43" + " menit";
    var rows := PrayerRows(MockTimings, mins, 1200, MockSounds, Countdown(MinutesUntilNext(mins, 1200)));
    assert rows[4].isCurrent && rows[0].isNext;
    assert rows[0].timeUntil == Some(Countdown(523));
    assert Countdown(523) == "Dalam 8 jam 43 menit";
  }

  /** Under an hour before the next prayer the countdown gives minutes only (19:00). */
  lemma LastHourMinutesOnly()
    ensures var mins := MockMinutesOfDay;
      var rows := PrayerRows(MockTimings, mins, 1140, MockSounds, Countdown(MinutesUntilNext(mins, 1140)));
      && rows[3].isCurrent
      && rows[4].isNext
      && rows[4].timeUntil == Some("Dalam 7 menit")
  {
    var mins := MockMinutesOfDay;
    CurrentPrayerIndexIs(mins, 1140, 3);
    assert MinutesUntilNext(mins, 1140) == 7;
    assert DecimalString(7) == "7";
    assert Countdown(7) == "Dalam " + "7" + " menit";
    var rows := PrayerRows(MockTimings, mins, 1140, MockSounds, Countdown(MinutesUntilNext(mins, 1140)));
    assert rows[3].isCurrent && rows[4].isNext;
    assert rows[4].timeUntil == Some(Countdown(7));
    assert Countdown(7) == "Dalam 7 menit";
  }
}
