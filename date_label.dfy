/**
 * The Indonesian date label of src/lib/date.ts (`formatTanggalIndoFromApi`):
 * the API's "Weekday, DD/MM/YYYY" becomes "Weekday, D MonthName YYYY",
 * e.g. "Sabtu, 19/07/2025" becomes "Sabtu, 19 Juli 2025".
 */
module DateLabel {
  import opened Wrappers
  import opened Text

  /** The month names, January first (`months`). */
  const MonthNames: seq<string> := [
    "Januari", "Februari", "Maret", "April", "Mei", "Juni",
    "Juli", "Agustus", "September", "Oktober", "November", "Desember"
  ]

  /** A month name is a non-empty word of ASCII letters. */
  predicate IsWord(s: string) {
    |s| > 0 && forall i :: 0 <= i < |s| ==> 'A' <= s[i] <= 'Z' || 'a' <= s[i] <= 'z'
  }

  /** The twelve month names are words and no two months share a name. */
  lemma MonthNamesDistinct()
    ensures |MonthNames| == 12
    ensures forall k :: 0 <= k < |MonthNames| ==> IsWord(MonthNames[k])
    ensures forall i, j :: 0 <= i < j < |MonthNames| ==> MonthNames[i] != MonthNames[j]
  {
    forall i, j | 0 <= i < j < |MonthNames| ensures MonthNames[i] != MonthNames[j] {
      var a, b := MonthNames[i], MonthNames[j];
      assert |a| != |b| || a[0] != b[0] || a[1] != b[1] || a[2] != b[2];
    }
  }

  /** `months[month - 1]` for a month number 1..12. */
  function MonthName(month: nat): string
    requires 1 <= month <= 12
  {
    MonthNames[month - 1]
  }

  /** Distinct month numbers give distinct month names. */
  lemma MonthNameInjective(m: nat, n: nat)
    requires 1 <= m <= 12 && 1 <= n <= 12
    ensures MonthName(m) == MonthName(n) <==> m == n
  {
    MonthNamesDistinct();
    if m < n {
      assert MonthNames[m - 1] != MonthNames[n - 1];
    } else if n < m {
      assert MonthNames[n - 1] != MonthNames[m - 1];
    }
  }

  /** The month number whose name is `name`, searching from month `k + 1`. */
  function MonthNumberFrom(name: string, k: nat): (m: Option<nat>)
    requires k <= |MonthNames|
    ensures m.Some? ==> k < m.value <= 12 && MonthName(m.value) == name
    ensures m.None? ==> forall j :: k <= j < |MonthNames| ==> MonthNames[j] != name
    decreases |MonthNames| - k
  {
    if k == |MonthNames| then None
    else if MonthNames[k] == name then Some(k + 1)
    else MonthNumberFrom(name, k + 1)
  }

  /** The month number of a month name, the inverse of `MonthName`. */
  function MonthNumber(name: string): (m: Option<nat>)
    ensures m.Some? ==> 1 <= m.value <= 12 && MonthName(m.value) == name
    ensures m.None? ==> name !in MonthNames
  {
    MonthNumberFrom(name, 0)
  }

  lemma MonthNumberOfName(month: nat)
    requires 1 <= month <= 12
    ensures MonthNumber(MonthName(month)) == Some(month)
  {
    var m := MonthNumber(MonthName(month));
    assert m.Some? by {
      assert MonthNames[month - 1] == MonthName(month);
    }
    MonthNameInjective(m.value, month);
  }

  /**
   * `parseInt(day, 10)` interpolated into the label: the day's value written
   * without leading zeros.
   */
  function DayNumber(day: string): (d: string)
    requires IsNumeral(day)
    ensures IsCanonicalNumeral(d) && ParseDecimal(d) == ParseDecimal(day)
    ensures IsCanonicalNumeral(day) ==> d == day
  {
    ParseDecimalString(ParseDecimal(day));
    CanonicalDayKept(day);
    DecimalString(ParseDecimal(day))
  }

  lemma CanonicalDayKept(day: string)
    requires IsNumeral(day)
    ensures IsCanonicalNumeral(day) ==> DecimalString(ParseDecimal(day)) == day
  {
    if IsCanonicalNumeral(day) {
      DecimalStringOfParse(day);
    }
  }

  /** A leading zero of a two-digit day is stripped: "07" gives "7". */
  lemma DayLeadingZeroStripped(day: string)
    requires |day| == 2 && IsDigits(day) && day[0] == '0'
    ensures DayNumber(day) == day[1..]
  {
    ParseTwoDigits(day);
    assert ParseDecimal(day) == DigitValue(day[1]);
    assert DecimalString(DigitValue(day[1])) == [day[1]];
  }

  /**
   * What the formatter relies on: a weekday before the first ", ", and after
   * it at least three "/"-separated fields, the first two (day and month)
   * numerals and the month 1..12.
   */
  predicate WellFormedTanggal(apiTanggal: string) {
    var parts := Split(apiTanggal, ", ");
    && |parts| >= 2
    && var dmy := Split(parts[1], "/");
    && |dmy| >= 3
    && IsNumeral(dmy[0]) && IsNumeral(dmy[1])
    && 1 <= ParseDecimal(dmy[1]) <= 12
  }

  /** `formatTanggalIndoFromApi`. */
  function FormatTanggalIndo(apiTanggal: string): string
    requires WellFormedTanggal(apiTanggal)
  {
    var parts := Split(apiTanggal, ", ");
    var dayName, datePart := parts[0], parts[1];
    var dmy := Split(datePart, "/");
    var day, month, year := dmy[0], dmy[1], dmy[2];
    var monthName := MonthName(ParseDecimal(month));
    dayName + ", " + DayNumber(day) + " " + monthName + " " + year
  }

  /** The API's date text for a weekday, day, month and year. */
  function Tanggal(dayName: string, day: string, month: string, year: string): string {
    dayName + ", " + day + "/" + month + "/" + year
  }

  /** The fields a date text is made of, for which the formatter's reading is the intended one. */
  predicate PlainFields(dayName: string, day: string, month: string, year: string) {
    && ',' !in dayName
    && IsNumeral(day) && IsNumeral(month) && 1 <= ParseDecimal(month) <= 12
    && ',' !in year && '/' !in year
  }

  /** "DD/MM/YYYY".split("/") gives the day, the month and the year. */
  lemma SplitDatePart(day: string, month: string, year: string)
    requires IsNumeral(day) && IsNumeral(month) && '/' !in year
    ensures Split(day + "/" + month + "/" + year, "/") == [day, month, year]
  {
    NotInDigits(day, '/');
    NotInDigits(month, '/');
    var tail := month + "/" + year;
    assert day + "/" + month + "/" + year == day + "/" + tail;
    SplitAt(day, "/", tail);
    SplitAt(month, "/", year);
    SplitNone(year, "/");
  }

  /** The date text split on ", " gives the weekday and the date part. */
  lemma SplitTanggal(dayName: string, day: string, month: string, year: string)
    requires PlainFields(dayName, day, month, year)
    ensures Split(Tanggal(dayName, day, month, year), ", ") == [dayName, day + "/" + month + "/" + year]
  {
    var datePart := day + "/" + month + "/" + year;
    assert Tanggal(dayName, day, month, year) == dayName + ", " + datePart;
    NotInDigits(day, ',');
    NotInDigits(month, ',');
    assert ',' !in datePart;
    SplitAt(dayName, ", ", datePart);
    SplitNone(datePart, ", ");
  }

  /**
   * On a date text built from plain fields, the label is the weekday, the
   * day without leading zeros, the month's name and the year, copied in that order.
   */
  lemma FormatOfParts(dayName: string, day: string, month: string, year: string)
    requires PlainFields(dayName, day, month, year)
    ensures WellFormedTanggal(Tanggal(dayName, day, month, year))
    ensures FormatTanggalIndo(Tanggal(dayName, day, month, year))
         == dayName + ", " + DayNumber(day) + " " + MonthName(ParseDecimal(month)) + " " + year
  {
    SplitTanggal(dayName, day, month, year);
    SplitDatePart(day, month, year);
  }

  /** The parts a label is read back into: weekday, day of the month, month number and year. */
  datatype DateParts = DateParts(dayName: string, day: nat, month: nat, year: string)

  /** Reads a label "Weekday, D MonthName YYYY" back into its parts; the inverse of the formatter. */
  function ReadLabel(formatted: string): Option<DateParts> {
    var parts := Split(formatted, ", ");
    if |parts| != 2 then None
    else
      var words := Split(parts[1], " ");
      if |words| != 3 || !IsCanonicalNumeral(words[0]) then None
      else
        match MonthNumber(words[1])
        case None => None
        case Some(m) => Some(DateParts(parts[0], ParseDecimal(words[0]), m, words[2]))
  }

  /** A label split on ", " and then on " " gives back the weekday, the day, the month name and the year. */
  lemma SplitLabel(dayName: string, d: string, name: string, year: string)
    requires ',' !in dayName && IsNumeral(d) && IsWord(name) && ',' !in year && ' ' !in year
    ensures Split(dayName + ", " + d + " " + name + " " + year, ", ") == [dayName, d + " " + name + " " + year]
    ensures Split(d + " " + name + " " + year, " ") == [d, name, year]
  {
    var rest := d + " " + name + " " + year;
    assert dayName + ", " + d + " " + name + " " + year == dayName + ", " + rest;
    NotInDigits(d, ',');
    NotInDigits(d, ' ');
    assert ',' !in name && ' ' !in name;
    assert ',' !in rest;
    SplitAt(dayName, ", ", rest);
    SplitNone(rest, ", ");
    var words := [d, name, year];
    JoinThree(d, name, year, " ");
    SplitJoin(words, " ");
  }

  /**
   * The label keeps the weekday and the year unchanged and determines the
   * day's value and the month number: reading it back gives them all.
   */
  lemma LabelRoundTrip(dayName: string, day: string, month: string, year: string)
    requires PlainFields(dayName, day, month, year) && ' ' !in year
    ensures WellFormedTanggal(Tanggal(dayName, day, month, year))
    ensures ReadLabel(FormatTanggalIndo(Tanggal(dayName, day, month, year)))
         == Some(DateParts(dayName, ParseDecimal(day), ParseDecimal(month), year))
  {
    FormatOfParts(dayName, day, month, year);
    var d := DayNumber(day);
    var m := ParseDecimal(month);
    MonthNamesDistinct();
    SplitLabel(dayName, d, MonthName(m), year);
    MonthNumberOfName(m);
  }

  /** The documented example's date text and label, spelled out from their fields. */
  lemma SabtuLiterals(dayName: string, day: string, month: string, year: string)
    requires dayName == "Sabtu" && day == "19" && month == "07" && year == "2025"
    ensures Tanggal(dayName, day, month, year) == "Sabtu, 19/07/2025"
    ensures dayName + ", " + day + " " + "Juli" + " " + year == "Sabtu, 19 Juli 2025"
  {
  }

  /** The documented example stated over its fields: month 07 is named Juli, the rest is copied. */
  lemma SabtuFields(dayName: string, day: string, month: string, year: string)
    requires dayName == "Sabtu" && day == "19" && month == "07" && year == "2025"
    ensures WellFormedTanggal(Tanggal(dayName, day, month, year))
    ensures FormatTanggalIndo(Tanggal(dayName, day, month, year)) == dayName + ", " + day + " " + "Juli" + " " + year
  {
    ParseTwoDigits(month);
    assert IsCanonicalNumeral(day);
    FormatOfParts(dayName, day, month, year);
    assert MonthName(ParseDecimal(month)) == "Juli";
  }

  /** The formatter's own documentation example: "Sabtu, 19/07/2025" becomes "Sabtu, 19 Juli 2025". */
  lemma SabtuExample()
    ensures WellFormedTanggal("Sabtu, 19/07/2025")
    ensures FormatTanggalIndo("Sabtu, 19/07/2025") == "Sabtu, 19 Juli 2025"
  {
    SabtuLiterals("Sabtu", "19", "07", "2025");
    SabtuFields("Sabtu", "19", "07", "2025");
  }
}
