/**
 * The derivations the RetroClock widget computes from the current time on
 * every render: zero-padded fields, month and weekday labels, the AM/PM
 * period, the rotation of the three analog hands, and the digital
 * HH:MM:SS readout. The Date object is not modelled: its fields arrive as
 * plain naturals, and 24-hour times as a TimeOfDay.
 */
module RetroClock {
  import opened JsString

  datatype Option<T> = None | Some(value: T)

  /** The hours (0..23), minutes and seconds (0..59) read from a Date. */
  datatype TimeOfDay = TimeOfDay(hours: nat, minutes: nat, seconds: nat)

  predicate ValidTime(t: TimeOfDay)
  {
    t.hours < 24 && t.minutes < 60 && t.seconds < 60
  }

  // ---------------------------------------------------------------------
  // Zero-padding

  /**
   * `formatTwoDigits`: the decimal string of `n` left-padded with '0' to
   * width two (for `n` below 10^21, see DecimalString). It reads back as
   * `n`, is two characters for every field
   * value below 100, and is the plain decimal string from 10 on.
   */
  function FormatTwoDigits(n: nat): (r: string)
    ensures AllDigits(r) && DigitsValue(r) == n
    ensures n < 100 ==> |r| == 2
    ensures r[0] == '0' <==> n < 10
    ensures n >= 10 ==> r == DecimalString(n)
  {
    DigitsValueOfDecimalString(n);
    if n < 10 then LeadingZeroValue(DecimalString(n)); PadStart(DecimalString(n), 2, '0')
    else PadStart(DecimalString(n), 2, '0')
  }

  /** Distinct naturals are never padded to the same string. */
  lemma FormatTwoDigitsInjective(a: nat, b: nat)
    requires FormatTwoDigits(a) == FormatTwoDigits(b)
    ensures a == b
  {
    assert DigitsValue(FormatTwoDigits(a)) == a;
  }

  // ---------------------------------------------------------------------
  // Lookup tables

  const MonthNames: seq<string> :=
    ["JAN", "FEB", "MAR", "APR", "MAY", "JUN",
     "JUL", "AUG", "SEP", "OCT", "NOV", "DEC"]

  const DayNames: seq<string> := ["SUN", "MON", "TUE", "WED", "THU", "FRI", "SAT"]

  predicate IsLabel(s: string)
  {
    |s| == 3 && forall i :: 0 <= i < 3 ==> 'A' <= s[i] <= 'Z'
  }

  predicate Distinct(xs: seq<string>)
  {
    forall i, j :: 0 <= i < |xs| && 0 <= j < |xs| && xs[i] == xs[j] ==> i == j
  }

  /**
   * The position of the first occurrence of `x` in `xs`, or None when `x`
   * does not occur: the inverse of indexing a table.
   */
  function IndexOf(xs: seq<string>, x: string): (r: Option<nat>)
    ensures r.None? <==> x !in xs
    ensures r.Some? ==> r.value < |xs| && xs[r.value] == x
    ensures r.Some? ==> forall k :: 0 <= k < r.value ==> xs[k] != x
    decreases |xs|
  {
    if xs == [] then None
    else if xs[0] == x then Some(0)
    else match IndexOf(xs[1..], x)
      case None => None
      case Some(k) => Some(k + 1)
  }

  /** In a table without repeats, looking up the entry at `i` gives back `i`. */
  lemma IndexOfDistinct(xs: seq<string>, i: nat)
    requires Distinct(xs) && i < |xs|
    ensures IndexOf(xs, xs[i]) == Some(i)
  {
    var r := IndexOf(xs, xs[i]);
    assert xs[r.value] == xs[i];
  }

  /** `getMonth`: the label of month index 0 (January) .. 11 (December). */
  function GetMonth(month: nat): (r: string)
    requires month < 12
    ensures IsLabel(r) && r in MonthNames
  {
    MonthNames[month]
  }

  /** The label of a month, read back as its index. */
  function MonthIndex(name: string): (r: Option<nat>)
  {
    IndexOf(MonthNames, name)
  }

  lemma MonthNamesDistinct()
    ensures Distinct(MonthNames)
  {
    forall i, j | 0 <= i < 12 && 0 <= j < 12 && i != j
      ensures MonthNames[i] != MonthNames[j]
    {
      assert MonthNames[i][0] != MonthNames[j][0]
          || MonthNames[i][1] != MonthNames[j][1]
          || MonthNames[i][2] != MonthNames[j][2];
    }
  }

  /** The label of each month 0..11 reads back as that month. */
  lemma GetMonthRoundTrip(month: nat)
    requires month < 12
    ensures MonthIndex(GetMonth(month)) == Some(month)
  {
    MonthNamesDistinct();
    IndexOfDistinct(MonthNames, month);
  }

  /** A string is read back as month `i` only if it is that month's label. */
  lemma MonthIndexSound(name: string)
    ensures MonthIndex(name).Some? <==> name in MonthNames
    ensures MonthIndex(name).Some? ==>
      MonthIndex(name).value < 12 && GetMonth(MonthIndex(name).value) == name
  {
  }

  lemma GetMonthInjective(a: nat, b: nat)
    requires a < 12 && b < 12 && GetMonth(a) == GetMonth(b)
    ensures a == b
  {
    GetMonthRoundTrip(a);
    GetMonthRoundTrip(b);
  }

  lemma GetMonthCalendarOrder()
    ensures GetMonth(0) == "JAN" && GetMonth(1) == "FEB" && GetMonth(5) == "JUN"
    ensures GetMonth(8) == "SEP" && GetMonth(11) == "DEC"
  {
  }

  /** `getDayOfWeek`: the label of weekday index 0 (Sunday) .. 6 (Saturday). */
  function GetDayOfWeek(day: nat): (r: string)
    requires day < 7
    ensures IsLabel(r) && r in DayNames
  {
    DayNames[day]
  }

  /** The label of a weekday, read back as its index. */
  function DayIndex(name: string): (r: Option<nat>)
  {
    IndexOf(DayNames, name)
  }

  lemma DayNamesDistinct()
    ensures Distinct(DayNames)
  {
    forall i, j | 0 <= i < 7 && 0 <= j < 7 && i != j
      ensures DayNames[i] != DayNames[j]
    {
      assert DayNames[i][0] != DayNames[j][0]
          || DayNames[i][1] != DayNames[j][1];
    }
  }

  /** The label of each weekday 0..6 reads back as that day. */
  lemma GetDayOfWeekRoundTrip(day: nat)
    requires day < 7
    ensures DayIndex(GetDayOfWeek(day)) == Some(day)
  {
    DayNamesDistinct();
    IndexOfDistinct(DayNames, day);
  }

  /** A string is read back as day `i` only if it is that day's label. */
  lemma DayIndexSound(name: string)
    ensures DayIndex(name).Some? <==> name in DayNames
    ensures DayIndex(name).Some? ==>
      DayIndex(name).value < 7 && GetDayOfWeek(DayIndex(name).value) == name
  {
  }

  lemma GetDayOfWeekInjective(a: nat, b: nat)
    requires a < 7 && b < 7 && GetDayOfWeek(a) == GetDayOfWeek(b)
    ensures a == b
  {
    GetDayOfWeekRoundTrip(a);
    GetDayOfWeekRoundTrip(b);
  }

  lemma GetDayOfWeekSundayFirst()
    ensures GetDayOfWeek(0) == "SUN" && GetDayOfWeek(1) == "MON" && GetDayOfWeek(6) == "SAT"
  {
  }

  // ---------------------------------------------------------------------
  // Period

  /** `getPeriod`: "PM" exactly when the 24-hour hour is 12 or later. */
  function GetPeriod(hours: nat): (r: string)
    ensures r == "PM" <==> hours >= 12
    ensures r == "AM" <==> hours < 12
  {
    if hours >= 12 then "PM" else "AM"
  }

  lemma GetPeriodBoundaries()
    ensures GetPeriod(0) == "AM" && GetPeriod(11) == "AM"
    ensures GetPeriod(12) == "PM" && GetPeriod(23) == "PM"
  {
  }

  /**
   * The 12-hour dial hour together with the period gives back the 24-hour
   * hour.
   */
  lemma DialHourAndPeriodDetermineHour(a: nat, b: nat)
    requires a < 24 && b < 24
    requires a % 12 == b % 12 && GetPeriod(a) == GetPeriod(b)
    ensures a == b
  {
  }

  // ---------------------------------------------------------------------
  // Hand rotation

  /**
   * `getRotation`: the angle in degrees, clockwise from 12 o'clock, of the
   * hand named by `unit`; any other name gives 0. Exact real arithmetic
   * stands for the source's floating point.
   */
  function GetRotation(unit: string, t: TimeOfDay): (r: real)
    ensures r >= 0.0
    ensures unit != "seconds" && unit != "minutes" && unit != "hours" ==> r == 0.0
  {
    if unit == "seconds" then
      (t.seconds as real) * 6.0
    else if unit == "minutes" then
      (t.minutes as real) * 6.0 + (t.seconds as real) * 0.1
    else if unit == "hours" then
      ((t.hours % 12) as real) * 30.0 + (t.minutes as real) * 0.5 + (t.seconds as real) * (0.5 / 60.0)
    else
      0.0
  }

  /** Seconds elapsed in the current minute, hour and half of the day. */
  function SecondsIntoHour(t: TimeOfDay): nat
  {
    t.minutes * 60 + t.seconds
  }

  function SecondsIntoHalfDay(t: TimeOfDay): nat
  {
    (t.hours % 12) * 3600 + SecondsIntoHour(t)
  }

  /**
   * Each hand shows the elapsed fraction of its revolution: a minute for
   * the second hand, an hour for the minute hand, twelve hours for the hour
   * hand.
   */
  lemma RotationIsElapsedFraction(t: TimeOfDay)
    ensures GetRotation("seconds", t) == 360.0 * (t.seconds as real) / 60.0
    ensures GetRotation("minutes", t) == 360.0 * (SecondsIntoHour(t) as real) / 3600.0
    ensures GetRotation("hours", t) == 360.0 * (SecondsIntoHalfDay(t) as real) / 43200.0
  {
  }

  /** For a valid time every hand stays within one revolution. */
  lemma RotationBounds(t: TimeOfDay)
    requires ValidTime(t)
    ensures 0.0 <= GetRotation("seconds", t) <= 354.0
    ensures 0.0 <= GetRotation("minutes", t) < 360.0
    ensures 0.0 <= GetRotation("hours", t) < 360.0
  {
    RotationIsElapsedFraction(t);
  }

  /** The second hand advances 6 degrees per second. */
  lemma SecondsRotationIncreasing(t1: TimeOfDay, t2: TimeOfDay)
    requires t1.seconds < t2.seconds
    ensures GetRotation("seconds", t1) < GetRotation("seconds", t2)
    ensures GetRotation("seconds", t2) - GetRotation("seconds", t1)
         == 6.0 * ((t2.seconds - t1.seconds) as real)
  {
  }

  /**
   * The second hand repeats every minute: sixty more seconds add exactly one
   * revolution.
   */
  lemma SecondsRotationMinutePeriodic(t: TimeOfDay)
    ensures GetRotation("seconds", t.(seconds := t.seconds + 60)) == GetRotation("seconds", t) + 360.0
  {
  }

  /** Later in the hour, the minute hand is further round. */
  lemma MinutesRotationIncreasing(t1: TimeOfDay, t2: TimeOfDay)
    requires SecondsIntoHour(t1) < SecondsIntoHour(t2)
    ensures GetRotation("minutes", t1) < GetRotation("minutes", t2)
  {
    RotationIsElapsedFraction(t1);
    RotationIsElapsedFraction(t2);
  }

  /** Later in the half-day, the hour hand is further round. */
  lemma HoursRotationIncreasing(t1: TimeOfDay, t2: TimeOfDay)
    requires SecondsIntoHalfDay(t1) < SecondsIntoHalfDay(t2)
    ensures GetRotation("hours", t1) < GetRotation("hours", t2)
  {
    RotationIsElapsedFraction(t1);
    RotationIsElapsedFraction(t2);
  }

  /** An hour and the same hour twelve hours later put the hour hand in the same place. */
  lemma HoursRotationHalfDayPeriodic(t: TimeOfDay)
    ensures GetRotation("hours", t) == GetRotation("hours", t.(hours := t.hours + 12))
  {
  }

  /**
   * The hands agree with each other: sixty turns of the minute hand's
   * angle are the second hand's angle plus whole revolutions, and twelve
   * of the hour hand's are the minute hand's plus whole revolutions.
   */
  lemma HandsAgree(t: TimeOfDay)
    ensures 60.0 * GetRotation("minutes", t)
         == GetRotation("seconds", t) + 360.0 * (t.minutes as real)
    ensures 12.0 * GetRotation("hours", t)
         == GetRotation("minutes", t) + 360.0 * ((t.hours % 12) as real)
  {
  }

  lemma RotationExamples()
    ensures GetRotation("hours", TimeOfDay(3, 0, 0)) == 90.0
    ensures GetRotation("hours", TimeOfDay(6, 30, 0)) == 195.0
    ensures GetRotation("hours", TimeOfDay(15, 0, 0)) == 90.0
    ensures GetRotation("minutes", TimeOfDay(0, 15, 0)) == 90.0
    ensures GetRotation("minutes", TimeOfDay(0, 15, 30)) == 93.0
    ensures GetRotation("seconds", TimeOfDay(0, 0, 30)) == 180.0
    ensures GetRotation("second", TimeOfDay(10, 10, 10)) == 0.0
  {
  }

  /** A mixed-radix digit pair `q * 60 + d` with `d < 60` determines both. */
  lemma SexagesimalUnique(q1: nat, d1: nat, q2: nat, d2: nat)
    requires d1 < 60 && d2 < 60 && q1 * 60 + d1 == q2 * 60 + d2
    ensures q1 == q2 && d1 == d2
  {
    assert q1 < q2 ==> q1 * 60 + d1 < q2 * 60;
    assert q2 < q1 ==> q2 * 60 + d2 < q1 * 60;
  }

  /**
   * The hour hand alone fixes the dial hour, minutes and seconds of a valid
   * time; with the period it fixes the whole time of day.
   */
  lemma HourHandDeterminesTime(t1: TimeOfDay, t2: TimeOfDay)
    requires ValidTime(t1) && ValidTime(t2)
    requires GetRotation("hours", t1) == GetRotation("hours", t2)
    ensures t1.hours % 12 == t2.hours % 12
    ensures t1.minutes == t2.minutes && t1.seconds == t2.seconds
    ensures GetPeriod(t1.hours) == GetPeriod(t2.hours) ==> t1 == t2
  {
    RotationIsElapsedFraction(t1);
    RotationIsElapsedFraction(t2);
    assert SecondsIntoHalfDay(t1) == SecondsIntoHalfDay(t2);
    SexagesimalUnique((t1.hours % 12) * 60 + t1.minutes, t1.seconds,
                      (t2.hours % 12) * 60 + t2.minutes, t2.seconds);
    SexagesimalUnique(t1.hours % 12, t1.minutes, t2.hours % 12, t2.minutes);
    if GetPeriod(t1.hours) == GetPeriod(t2.hours) {
      DialHourAndPeriodDetermineHour(t1.hours, t2.hours);
    }
  }

  // ---------------------------------------------------------------------
  // Digital readout

  /** The digital display: the three padded fields joined by ':'. */
  function DigitalReadout(t: TimeOfDay): (r: string)
    ensures ValidTime(t) ==> |r| == 8 && r[2] == ':' && r[5] == ':'
  {
    var hh, mm, ss := FormatTwoDigits(t.hours), FormatTwoDigits(t.minutes), FormatTwoDigits(t.seconds);
    ColonPositions(hh, mm, ss);
    hh + ":" + mm + ":" + ss
  }

  /** Joining two two-character fields and a third puts the colons at 2 and 5. */
  lemma ColonPositions(a: string, b: string, c: string)
    ensures |a| == 2 && |b| == 2 ==>
      var r := a + ":" + b + ":" + c;
      |r| == 6 + |c| && r[2] == ':' && r[5] == ':'
  {
  }

  /** Reads an `HH:MM:SS` string back into its three fields. */
  function ParseReadout(r: string): (p: Option<TimeOfDay>)
  {
    if |r| == 8 && r[2] == ':' && r[5] == ':'
       && AllDigits(r[0..2]) && AllDigits(r[3..5]) && AllDigits(r[6..8])
    then Some(TimeOfDay(DigitsValue(r[0..2]), DigitsValue(r[3..5]), DigitsValue(r[6..8])))
    else None
  }

  /** The two digits of a number below 100 read back as that number. */
  lemma DigitPairValue(n: nat)
    requires n < 100
    ensures AllDigits([DigitChar(n / 10), DigitChar(n % 10)])
    ensures DigitsValue([DigitChar(n / 10), DigitChar(n % 10)]) == n
  {
    var p := [DigitChar(n / 10), DigitChar(n % 10)];
    assert DigitValue(p[0]) == n / 10 && DigitValue(p[1]) == n % 10;
    assert p[..1] == [DigitChar(n / 10)];
    assert DigitsValue(p[..1]) == n / 10 by {
      assert p[..1][..0] == [];
    }
  }

  /** The readout of a valid time reads back as that time. */
  lemma DigitalReadoutRoundTrip(t: TimeOfDay)
    requires ValidTime(t)
    ensures ParseReadout(DigitalReadout(t)) == Some(t)
  {
    var r := DigitalReadout(t);
    ReadoutOfDigits(t);
    assert r[0..2] == [DigitChar(t.hours / 10), DigitChar(t.hours % 10)];
    assert r[3..5] == [DigitChar(t.minutes / 10), DigitChar(t.minutes % 10)];
    assert r[6..8] == [DigitChar(t.seconds / 10), DigitChar(t.seconds % 10)];
    DigitPairValue(t.hours);
    DigitPairValue(t.minutes);
    DigitPairValue(t.seconds);
  }

  /** Different valid times never show the same readout. */
  lemma DigitalReadoutInjective(t1: TimeOfDay, t2: TimeOfDay)
    requires ValidTime(t1) && ValidTime(t2)
    requires DigitalReadout(t1) == DigitalReadout(t2)
    ensures t1 == t2
  {
    DigitalReadoutRoundTrip(t1);
    DigitalReadoutRoundTrip(t2);
  }

  /** The last second of the day and the first one. */
  lemma DigitalReadoutAtMidnight()
    ensures DigitalReadout(TimeOfDay(23, 59, 59)) == "23:59:59"
  {
    ReadoutOfDigits(TimeOfDay(23, 59, 59));
  }

  lemma DigitalReadoutAfterMidnight()
    ensures DigitalReadout(TimeOfDay(0, 0, 0)) == "00:00:00"
  {
    ReadoutOfDigits(TimeOfDay(0, 0, 0));
  }

  /** Single-digit fields are shown with a leading zero. */
  lemma DigitalReadoutPadsFields()
    ensures DigitalReadout(TimeOfDay(9, 5, 30)) == "09:05:30"
  {
    ReadoutOfDigits(TimeOfDay(9, 5, 30));
  }

  /** The readout of a valid time, character by character. */
  lemma ReadoutOfDigits(t: TimeOfDay)
    requires ValidTime(t)
    ensures DigitalReadout(t)
         == [DigitChar(t.hours / 10), DigitChar(t.hours % 10), ':',
             DigitChar(t.minutes / 10), DigitChar(t.minutes % 10), ':',
             DigitChar(t.seconds / 10), DigitChar(t.seconds % 10)]
  {
    FormatTwoDigitsDigits(t.hours);
    FormatTwoDigitsDigits(t.minutes);
    FormatTwoDigitsDigits(t.seconds);
  }

  /** Below 100 the padded string is the tens digit followed by the units digit. */
  lemma FormatTwoDigitsDigits(n: nat)
    requires n < 100
    ensures FormatTwoDigits(n) == [DigitChar(n / 10), DigitChar(n % 10)]
  {
    var d := DecimalString(n);
    var r := PadStart(d, 2, '0');
    if n < 10 {
      assert d == [DigitChar(n)];
      assert r == Repeat('0', 1) + d;
      assert r[0] == '0' == DigitChar(n / 10);
      assert r[1] == d[0];
    } else {
      assert d == DecimalString(n / 10) + [DigitChar(n % 10)];
      assert DecimalString(n / 10) == [DigitChar(n / 10)];
    }
    assert FormatTwoDigits(n) == r;
  }

  lemma FormatTwoDigitsExamples()
    ensures FormatTwoDigits(0) == "00" && FormatTwoDigits(5) == "05" && FormatTwoDigits(9) == "09"
    ensures FormatTwoDigits(23) == "23" && FormatTwoDigits(30) == "30" && FormatTwoDigits(59) == "59"
    ensures FormatTwoDigits(123) == "123"
  {
    FormatTwoDigitsDigits(0);
    FormatTwoDigitsDigits(5);
    FormatTwoDigitsDigits(9);
    FormatTwoDigitsDigits(23);
    FormatTwoDigitsDigits(30);
    FormatTwoDigitsDigits(59);
    assert DecimalString(12) == [DigitChar(1), DigitChar(2)];
  }
}
