# RetroClock derivations in Dafny

RetroClock is a single React component (`App` in `src/App.tsx`). It shows the
local time as a year, a month label with the day of the month, an analog clock
face with weekday label and AM/PM period, and a digital `HH:MM:SS` readout, and
refreshes once per second. This project models the pure helpers that compute
what is shown from the current time. It proves their properties:

- `formatTwoDigits`: zero-padding through `Number.prototype.toString` and
  `String.prototype.padStart`. It reads back as its input. It is two characters
  for every value below 100 and never truncates.
- `getMonth` and `getDayOfWeek`: the fixed label tables, their order, that no
  label repeats, and the inverse lookup.
- `getPeriod`: AM/PM at the noon boundary. With the 12-hour dial hour it
  recovers the 24-hour hour.
- `getRotation`: the hand angles. Each is the elapsed fraction of its hand's
  revolution. They are bounded and monotone, the hour hand repeats every 12
  hours, and the hands agree with each other. The hour hand plus the period
  determines the time.
- The digital readout: eight characters, with a parser that reads it back as
  the time it shows.

Files:

- `js_string.dfy` (module `JsString`): the two JavaScript string built-ins the
  helpers use, on the inputs they receive. `DecimalString` is `n.toString()`
  for a natural `n`, with its inverse `DigitsValue`. `PadStart` is
  `s.padStart(width, fill)` with a one-character fill.
- `retro_clock.dfy` (module `RetroClock`): the helpers of `App` and the
  lemmas about them.

The `Date` object is not modelled. Its fields reach the helpers as plain
naturals: a month index, a weekday index, an hour, or a `TimeOfDay(hours,
minutes, seconds)`. `ValidTime` states the ranges a `Date` guarantees (hours
0..23, minutes and seconds 0..59). In the source, `getRotation(unit)` reads the
component's `time` state. Here `GetRotation(unit, t)` takes that time as an
argument. Angles are exact `real` values: `0.1` and `0.5 / 60` are the rationals
1/10 and 1/120, not their IEEE-754 approximations.

The readout markup at `src/App.tsx:157-159` writes each `:` followed by a line
break and indentation. JSX drops whitespace that contains a line break, so the
rendered text is exactly `HH:MM:SS`. `DigitalReadout` models that text.

## Model

| member | source | states |
|---|---|---|
| `JsString.DecimalString` | src/App.tsx:15 | `n.toString()` is a non-empty digit string. It starts with '0' only for 0. It is one character exactly for n < 10 and two exactly for 10..99 |
| `JsString.DigitsValueOfDecimalString` | src/App.tsx:15 | reading the decimal string of n back as a number gives n |
| `JsString.DecimalStringOfDigitsValue` | src/App.tsx:15 | every digit string without a leading zero is the decimal string of the number it denotes |
| `JsString.LeadingZeroValue` | src/App.tsx:15 | a '0' put in front by padding does not change the value the digits denote |
| `JsString.PadStart` | src/App.tsx:15 | `padStart(width, fill)` returns a string of length max(width, len). Its suffix is the input and every character before it is the fill. It returns the input unchanged when the input is already at least `width` long (no truncation) |
| `RetroClock.FormatTwoDigits` | src/App.tsx:15 | the padded string is all digits and reads back as n. It has length 2 for n < 100. Its first character is '0' exactly when n < 10. From 10 on it is the plain decimal string, so values of 100 or more pass through unpadded |
| `RetroClock.FormatTwoDigitsInjective` | src/App.tsx:15 | different numbers never pad to the same string |
| `RetroClock.FormatTwoDigitsDigits` | src/App.tsx:15 | below 100 the result is the tens digit followed by the units digit |
| `RetroClock.FormatTwoDigitsExamples` | src/App.tsx:15 | 0, 5, 9, 23, 30, 59 give "00", "05", "09", "23", "30", "59"; 123 gives "123" |
| `RetroClock.GetMonth` | src/App.tsx:17-21 | every month index 0..11 gets a three-letter upper-case label from the table |
| `RetroClock.MonthNamesDistinct` | src/App.tsx:18-19 | the twelve month labels are pairwise different |
| `RetroClock.GetMonthRoundTrip` | src/App.tsx:18-20 | looking up the label of month i in the table gives back i |
| `RetroClock.MonthIndexSound` | src/App.tsx:18-20 | a string is found in the table exactly when it is a month label, and then it is the label of the index found |
| `RetroClock.GetMonthInjective` | src/App.tsx:18-20 | different months get different labels |
| `RetroClock.GetMonthCalendarOrder` | src/App.tsx:18-20 | index 0 is JAN, 1 FEB, 5 JUN, 8 SEP, 11 DEC |
| `RetroClock.GetDayOfWeek` | src/App.tsx:23-26 | every weekday index 0..6 gets a three-letter upper-case label from the table |
| `RetroClock.DayNamesDistinct` | src/App.tsx:24 | the seven weekday labels are pairwise different |
| `RetroClock.GetDayOfWeekRoundTrip` | src/App.tsx:24-25 | looking up the label of day i in the table gives back i |
| `RetroClock.DayIndexSound` | src/App.tsx:24-25 | a string is found in the table exactly when it is a weekday label, and then it is the label of the index found |
| `RetroClock.GetDayOfWeekInjective` | src/App.tsx:24-25 | different weekdays get different labels |
| `RetroClock.GetDayOfWeekSundayFirst` | src/App.tsx:24-25 | index 0 is SUN, 1 MON, 6 SAT |
| `RetroClock.GetPeriod` | src/App.tsx:28-30 | the result is "PM" if and only if the hour is at least 12, and "AM" if and only if it is below 12 |
| `RetroClock.GetPeriodBoundaries` | src/App.tsx:29 | hours 0 and 11 give AM; hours 12 and 23 give PM |
| `RetroClock.DialHourAndPeriodDetermineHour` | src/App.tsx:29 | two hours 0..23 with the same hour modulo 12 and the same period are equal |
| `RetroClock.GetRotation` | src/App.tsx:32-43 | every angle is non-negative; any unit other than "seconds", "minutes" or "hours" gives 0 |
| `RetroClock.RotationIsElapsedFraction` | src/App.tsx:34-39 | each hand's angle is 360 times the elapsed fraction of its revolution: seconds of the minute, seconds of the hour, seconds of the 12-hour half-day |
| `RetroClock.RotationBounds` | src/App.tsx:34-39 | for a valid time the second hand lies in [0, 354] and the minute and hour hands in [0, 360) |
| `RetroClock.SecondsRotationIncreasing` | src/App.tsx:35 | the second hand's angle strictly increases with the seconds, by 6 degrees per second |
| `RetroClock.MinutesRotationIncreasing` | src/App.tsx:37 | the minute hand's angle strictly increases with the seconds elapsed in the hour |
| `RetroClock.SecondsRotationMinutePeriodic` | src/App.tsx:35 | sixty more seconds add exactly 360 degrees to the second hand, so seconds 0 and 60 show the same position |
| `RetroClock.HoursRotationIncreasing` | src/App.tsx:39 | the hour hand's angle strictly increases with the seconds elapsed in the half-day |
| `RetroClock.HoursRotationHalfDayPeriodic` | src/App.tsx:39 | hours h and h + 12 put the hour hand at the same angle |
| `RetroClock.HandsAgree` | src/App.tsx:35-39 | 60 × minute angle = second angle + 360 × minutes; 12 × hour angle = minute angle + 360 × (hours mod 12) |
| `RetroClock.RotationExamples` | src/App.tsx:32-43 | 3:00:00 and 15:00:00 give 90 and 6:30:00 gives 195 for the hour hand; *:15:00 gives 90 and *:15:30 gives 93 for the minute hand; 30 s gives 180; an unknown unit gives 0 |
| `RetroClock.HourHandDeterminesTime` | src/App.tsx:29-39 | for valid times, equal hour-hand angles mean equal dial hour, minutes and seconds; with equal periods as well, the times are equal |
| `RetroClock.DigitalReadout` | src/App.tsx:157-159 | for a valid time the readout is 8 characters with ':' at positions 2 and 5 |
| `RetroClock.ReadoutOfDigits` | src/App.tsx:157-159 | the readout of a valid time is its six decimal digits, tens first, separated by ':' between the fields |
| `RetroClock.DigitPairValue` | src/App.tsx:157-159 | the tens and units digit of a number below 100 form a digit string that reads back as that number |
| `RetroClock.DigitalReadoutRoundTrip` | src/App.tsx:157-159 | parsing the readout of a valid time gives back that time |
| `RetroClock.DigitalReadoutInjective` | src/App.tsx:157-159 | different valid times show different readouts |
| `RetroClock.DigitalReadoutAtMidnight` | src/App.tsx:157-159 | 23:59:59 reads "23:59:59" |
| `RetroClock.DigitalReadoutAfterMidnight` | src/App.tsx:157-159 | 0:00:00 reads "00:00:00" |
| `RetroClock.DigitalReadoutPadsFields` | src/App.tsx:157-159 | 9:05:30 reads "09:05:30" |

## Left out

- The once-per-second refresh (`useState`, `setInterval`, and its `clearInterval` on teardown at src/App.tsx:5-13): host scheduling and component lifecycle, with no logic of the component's own.
- The `Date` object and the host clock: reading the current time, the field accessors, and calendar rollover (Dec 31 23:59:59 to Jan 1 00:00:00). The helpers receive the field values as naturals, within the ranges a `Date` guarantees.
- The year and day-of-month readouts (`getFullYear()`, `getDate()` at src/App.tsx:52 and 66): they are shown as they come from `Date`, with no helper in between.
- All rendering: JSX layout, CSS classes, the twelve tick marks at 30-degree steps (src/App.tsx:77-88), the `rotate(...deg)` transform strings, and the icon.
- IEEE-754 rounding: `GetRotation` uses exact rationals. For example, at :00:03 the source's minute hand is `3 * 0.1`, which is 0.30000000000000004 in doubles, while the model gives exactly 3/10; likewise `1 * (0.5 / 60)` at 0:00:01 is not exactly 1/120 in doubles.
- JsString.DecimalString: models `toString()` only on naturals below the range where JavaScript switches to exponent notation (10^21 and above). The helpers only ever receive Date fields.
- RetroClock.GetMonth: requires an index below 12, and GetDayOfWeek below 7. A `Date` never yields anything else, so the source's out-of-range result (`undefined`) is not modelled.
