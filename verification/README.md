# Daily prayer tracker: schedule and progress engine

A Dafny model of the logic inside the single React component `App` of a
children's daily-prayer tracker (`src/App.jsx`). The component receives the
times of the five daily prayers (Fajr, Dhuhr, Asr, Maghrib, Isha) as "HH:MM"
strings. Once a second it works out which prayer comes next and how long
remains until it. When the countdown reaches zero it plays the call to
prayer. It also keeps a same-session list of completed prayers with a point
counter (15 points per prayer), and it highlights each reward tier whose
threshold the points reach.

Modules, one per part of that logic:

- `Wrappers`: `Option` and `Result`.
- `Text`: the JavaScript built-ins the component uses on strings. These are
  `split(':')`, `parseInt` on decimal digits, and the decimal rendering of
  numbers inside template literals.
- `Clock`: times of day as milliseconds since local midnight. Also reads the
  "HH:MM" timings with `split(':').map(Number)` and builds the five-entry
  schedule from the fetched table.
- `Resolver`: the next-prayer scan, written as a method with a loop that keeps
  a running minimum. It is proved against a declarative predicate
  (`Resolves`), and properties of the scan are proved about that predicate.
- `Ticker`: the countdown split, the alarm condition and one timer tick.
- `Progress`: the reward tiers and the `Tracker` class. The class holds the
  `completedToday` list and the `points` counter and has the
  `handleCompletePrayer` operation.
- `Format12`: `format12Hour` and a reader for the text it produces.

The model follows the code. It departs from it in the places listed under
"Left out", and in the alarm condition (see "Findings").
Behaviour of the code worth knowing:

- When no prayer of today is ahead, the countdown runs to the entry named
  Fajr on the next day. It is always Fajr, not the earliest prayer of the day.
- A prayer whose time equals "now" is no longer a candidate (the `diffMs > 0`
  guard). A time left of exactly zero is therefore never reported.
- The code does not validate timings. If a timing is missing, `timeStr.split`
  throws a TypeError on every tick (src/App.jsx:75). `setNextPrayer` is then
  never reached, and the display keeps its initial "Loading..." and "--". A
  malformed timing reads as NaN: the scan skips it, and if it is Fajr's, the
  tomorrow countdown is NaN. The model instead reads the whole schedule first
  and reports the first missing or malformed timing (`Clock.ReadSchedule`).

## Model

| member | source | states |
|---|---|---|
| `Text.SplitColon` | src/App.jsx:75 | `split(':')` always yields at least one piece, and no piece contains a colon |
| `Text.SplitColonHead` | src/App.jsx:19-20 | the first piece of `split(':')` is the text before the first colon: a prefix of the input, followed by a colon unless it is the whole input |
| `Text.SplitAtFirstColon` | src/App.jsx:19-21 | a string without a colon is one piece; otherwise its pieces are the text before the first colon followed by the pieces of the text after it |
| `Text.SplitJoin` | src/App.jsx:19 | joining the pieces of `split(':')` back with ':' gives the original string |
| `Text.DecimalText` | src/App.jsx:23 | the decimal text a template literal renders for a natural number below 10^21 is a non-empty run of digits without a colon |
| `Text.DecimalTextValue` | src/App.jsx:23 | the decimal text a template literal renders for a number reads back as that number |
| `Text.ParseInt` | src/App.jsx:20 | `parseInt(s, 10)`, for an s with no leading whitespace or sign, is NaN (None) exactly when s does not start with a digit; otherwise it is the value of the leading digits, and on an all-digit string the string's value |
| `Text.DigitPrefixOfPrefix` | src/App.jsx:20 | cutting s before a non-digit does not change the digits `parseInt` reads from it |
| `Text.DigitPrefixOfDigits` | src/App.jsx:20 | `parseInt` of digits followed by a non-digit reads exactly those digits |
| `Clock.Millis` | src/App.jsx:76-77 | `setHours(h, m, 0, 0)` lies within the day, on a whole minute and on a whole second of the day |
| `Clock.MillisInjective` | src/App.jsx:76-79 | distinct times of day lie at distinct instants |
| `Clock.ReadNumber` | src/App.jsx:75 | `Number(piece)` is read exactly when the piece is a non-empty run of digits; its value is the digits' value, the same as `parseInt` gives |
| `Clock.ReadNumberOfDecimalText` | src/App.jsx:75 | `Number` of the decimal text of a natural number gives that number back |
| `Clock.ParseTime` | src/App.jsx:75-77 | a timing is read only if it has a colon, and exactly when its first two pieces read as numbers with the hour below 24 and the minute below 60; the time read has those two numbers |
| `Clock.ParseClockText` | src/App.jsx:75 | reading a zero-padded "HH:MM" timing with `split(':').map(Number)` gives back the time written |
| `Clock.ParseTimeRejectsOutOfRange` | src/App.jsx:75 | "25:99", "12:60" and a timing without a colon are refused, not rolled over |
| `Clock.Entries` | src/App.jsx:44-50 | `Object.entries(prayerTimes)` lists the five prayers in the order Fajr, Dhuhr, Asr, Maghrib, Isha; the first is Fajr's time |
| `Clock.ReadTimings` | src/App.jsx:43-50 | reading timings succeeds iff every one is present and well formed; on success each value is the parse of its string; on failure the error names the first unreadable prayer and says whether it was missing or malformed |
| `Clock.ReadSchedule` | src/App.jsx:43-50 | the five-prayer schedule is built iff all five timings read; its entries are the parsed timings; otherwise the first failing prayer is reported |
| `Clock.TimingsOfReadBack` | src/App.jsx:44-50 | each "HH:MM" entry of a schedule's timings table reads back as that prayer's time |
| `Clock.ReadScheduleOfTimings` | src/App.jsx:44-50 | reading the "HH:MM" table of a schedule gives that schedule back |
| `Resolver.Diff` | src/App.jsx:76-79 | `diffMs` is positive exactly when the prayer's time is after now; for an instant of today it lies strictly between minus one day and one day |
| `Resolver.Resolves` | src/App.jsx:70-95 | any correct answer is either the tomorrow label or one of the five prayer names, and for an instant of today its time left is positive and at most one day |
| `Resolver.ResolveNext` | src/App.jsx:70-95 | the scan returns the nearest prayer strictly ahead of now, the earliest listed on ties; with none ahead it returns "Fajr (Tomorrow)" at next-day Fajr minus now; the remaining time is positive and at most one day |
| `Resolver.NearestUnique` | src/App.jsx:81-84 | the strict `<` tie-break makes the nearest prayer ahead unique |
| `Resolver.ResolvesUnique` | src/App.jsx:74-95 | each schedule and instant has exactly one correct next-prayer answer |
| `Resolver.ResolvesCases` | src/App.jsx:81-95 | the tomorrow label is reported iff no prayer of today is ahead; otherwise the answer is one of the five names and no farther than any prayer ahead |
| `Resolver.AfterIshaCountsToTomorrowsFajr` | src/App.jsx:87-95 | once every timing has passed (or is now), the countdown runs to Fajr of the next day and is positive |
| `Resolver.ExampleDay` | src/App.jsx:70-95 | with prayers at 06, 12, 15, 18 and 20 o'clock: at 13:00 the next is Asr in 2 h; at 21:00 Fajr tomorrow in 9 h |
| `Ticker.JsRem` | src/App.jsx:99-100 | JavaScript `%` stays strictly between -b and b, takes the sign of the dividend, makes up the dividend together with the quotient rounded toward zero, and agrees with the mathematical remainder on non-negative operands |
| `Ticker.SplitTimeLeft` | src/App.jsx:97-100 | `totalSeconds` is the floor of the milliseconds over 1000; for a non-negative time left, hours*3600 + minutes*60 + seconds equals it with minutes and seconds in 0..59 |
| `Ticker.FiresAsWritten` | src/App.jsx:102 | `totalSeconds === 0` holds exactly when 0 <= diffMs < 1000 |
| `Ticker.Fires` | src/App.jsx:102 | the corrected alarm condition holds exactly when the time left, rounded up to whole seconds, is one second |
| `Ticker.AsWrittenMissesAlignedTicks` | src/App.jsx:97-111 | with a timer ticking every 1000 ms, the as-written condition holds for a prayer's own time left on some tick iff the ticks are not aligned to the prayer time to the millisecond (`Ticker.WithinASecondIsResolved` carries this to the countdown the tick resolves) |
| `Ticker.FiresExactlyOnce` | src/App.jsx:97-111 | with the corrected condition, a timer ticking every 1000 ms meets it for a prayer's own time left on exactly one tick, whatever its phase |
| `Ticker.WithinASecondIsResolved` | src/App.jsx:74-104 | when a prayer is at most one second ahead, the countdown the scan resolves is that prayer's time left (another prayer can win only by sharing its time), so the corrected condition holds for it |
| `Ticker.MinuteGrid` | src/App.jsx:76-77 | two timings less than a second apart are the same instant, because `setHours(h, m, 0, 0)` lies on whole minutes |
| `Ticker.TimerFiresForEachPrayer` | src/App.jsx:69-104 | on a timer ticking every 1000 ms, the tick on which the corrected condition is due for a prayer resolves to a countdown that plays the call, whichever prayer the scan names |
| `Ticker.AlignedInstantNeverFires` | src/App.jsx:79-102 | at any instant on a whole second, whatever prayer is next, the as-written condition is false |
| `Ticker.MissedDhuhr` | src/App.jsx:74-104 | Dhuhr at 12:00, ticks at 11:59:59.000 and 12:00:00.000: the first sees 1 s left, the second already counts to Asr, and the as-written condition holds on neither |
| `Ticker.TimeLeftText` | src/App.jsx:106-108 | the `${hrsLeft}h ${minsLeft}m ${secsLeft}s` text reads back as the hours, minutes and seconds it shows |
| `Ticker.ReadDecimalField` | src/App.jsx:108 | a number's decimal text followed by a unit mark reads back as that number and the text after the mark |
| `Ticker.Tick` | src/App.jsx:69-111 | one tick shows the resolved prayer's name and its "Xh Ym Zs" countdown, and fires with the corrected condition |
| `Progress.UnlockedTiers` | src/App.jsx:148-150 | one flag per tier; because the thresholds ascend, the unlocked tiers always form a prefix of the table; the first is unlocked exactly at 50 points or more, the last exactly at 500 or more |
| `Progress.UnlockedTiersMonotone` | src/App.jsx:148-150 | a tier unlocked at some points stays unlocked at any higher points |
| `Progress.Tracker.constructor` | src/App.jsx:31-34 | a session starts with no completed prayer and 0 points, in a valid state |
| `Progress.Tracker.IsCompleted` | src/App.jsx:164 | in a valid session, a prayer reported as completed is one of the five and at least its 15 points have been awarded |
| `Progress.Tracker.CompletePrayer` | src/App.jsx:116-122 | a first completion appends the name and adds exactly 15 points; a repeated one changes neither; the state stays duplicate-free with points = 15 per completion; points never decrease and no unlocked tier is locked again |
| `Progress.Tracker.CompleteTwice` | src/App.jsx:116-122 | completing a prayer twice lists it once and awards its points at most once: the ledger gains the name only if it was not already there |
| `Progress.Tracker.PointsBounded` | src/App.jsx:116-122 | a session holds at most 75 points, so the 150- and 500-point tiers can never be unlocked |
| `Progress.DistinctWithinBound` | src/App.jsx:117-118 | a duplicate-free list of names drawn from a set is no longer than the set |
| `Format12.Hour12` | src/App.jsx:22 | the hour shown as `hour % 12`, or 12 when that is zero or NaN, is in 1..12, congruent to the hour modulo 12, and 12 when the hour is NaN |
| `Format12.HourOf` | src/App.jsx:19-20 | `parseInt` of the text before the first colon equals `parseInt` of the whole timing, and is NaN exactly when the timing does not start with a digit |
| `Format12.MinuteText` | src/App.jsx:19-23 | the minute shown is `undefined` when there is no colon, and otherwise the colon-free run right after the first colon |
| `Format12.Display12` | src/App.jsx:21-23 | the `${hour12}:${minute} ${ampm}` text reads back as its three parts |
| `Format12.ReadTemplate` | src/App.jsx:23 | digits, a colon, a minute text, a space and AM or PM read back as the number, the minute text and the half of the day |
| `Format12.Format12Hour` | src/App.jsx:17-24 | the result is empty exactly when the input is empty |
| `Format12.Format12HourReadBack` | src/App.jsx:17-24 | any non-empty input's 12-hour text reads back as an hour in 1..12 congruent to the parsed hour (12 for NaN), the minute text unchanged (`undefined` without a colon), and PM iff the parsed hour is at least 12 |
| `Format12.To24HourOfHour12` | src/App.jsx:21-22 | on a 24-hour dial, the 12-hour hour and the AM/PM half give back the hour |
| `Format12.Format12HourOfClockText` | src/App.jsx:17-24 | for a well-formed "HH:MM" timing, the 12-hour text denotes the same hour of the day and the same two-digit minute |

## Left out

- The prayer-time web request, the geolocation lookup and its fallback coordinates (src/App.jsx:38-64) are network and browser I/O. The fetched table of timings is an input to `Clock.ReadSchedule`.
- The `setInterval`/`clearInterval` plumbing (src/App.jsx:69, 111-113) is not modelled. `Ticker.Tick` is one callback of the timer. The tick-stream lemmas assume ticks exactly 1000 ms apart; timer drift is not modelled.
- Audio playback (src/App.jsx:103, 126) is a browser call. Only the boolean "play now" condition is modelled.
- JavaScript `Date` is not modelled: no time zones, DST changes or month rollover in `setDate`. An instant is milliseconds since local midnight, and "tomorrow at T" is T + 86 400 000.
- NaN and the thrown TypeError are not modelled. In the code a missing timing makes `split` throw on every tick (src/App.jsx:75), so the display never leaves "Loading..."; a malformed timing is skipped by the scan, and a malformed Fajr makes the fallback countdown NaN. The model reads the whole schedule first and reports `MissingScheduleData` or `MalformedTimeOfDay`.
- `Clock.ReadNumber`/`Clock.ParseTime`: `Number` is modelled only on non-empty digit strings. Its acceptance of "", whitespace, signs, fractions and hex is refused instead. Hours of 24 or more and minutes of 60 or more are refused; `setHours` would roll them over.
- `Text.ParseInt`: `parseInt`'s skipping of leading whitespace and its handling of a leading `+` or `-` are not modelled; " 7", "+7" and "-7" read as NaN here. The timings arrive as plain "HH:MM".
- `Text.ParseInt`: JavaScript numbers are doubles. `parseInt` of more than 15 significant digits rounds to the nearest double, and a number beyond about 309 digits is Infinity. The model reads exact naturals, so `Format12HourReadBack` holds for the model's arithmetic only ("12345678901234567890:00" shows "4:00 PM" in the browser and "6:00 PM" here). The timings arrive as two-digit "HH".
- `Format12.HourOf`: inherits the `Text.ParseInt` limitation above.
- `Progress.Tracker.CompletePrayer`: requires the name to be one of the five prayers. Its only caller (src/App.jsx:186) passes keys of `PRAYER_DETAILS`.
- React's asynchronous `setState` and the stale `points` captured in `points + 15` (src/App.jsx:118-120) are not modelled. The two updates are sequential field assignments.
- Rendering (src/App.jsx:124-208) is not modelled: JSX, CSS classes, and the display-only `PRAYER_DETAILS` rakah counts and colours (src/App.jsx:3-9).
- The code keeps no record of the last prayer whose call was played, and neither does the model. Under exact 1000 ms ticks, `Ticker.FiresExactlyOnce` and `Ticker.TimerFiresForEachPrayer` give exactly one firing per prayer time without it.

## Findings

| source | as written | input that shows it | evidently intended | confidence | as-written member | corrected member |
|---|---|---|---|---|---|---|
| src/App.jsx:102 | the call to prayer plays when `Math.floor(diffMs / 1000) === 0`. The scan only keeps prayers with `diffMs > 0`, so this means 0 < diffMs < 1000. A timer ticking every 1000 ms whose ticks fall on the prayer's millisecond phase never meets it. | Dhuhr at 12:00 and ticks at 11:59:59.000 and 12:00:00.000. The first tick has 1000 ms left (1 s shown). At the second, Dhuhr is no longer ahead and the countdown moves to Asr. No tick plays the call. | play once on the last tick at or before the prayer time, i.e. 0 < diffMs <= 1000. A once-a-second timer meets this exactly once per prayer. | not executed; needs ticks aligned to the prayer time to the millisecond, so it is rare | `Ticker.FiresAsWritten` | `Ticker.Fires` |
