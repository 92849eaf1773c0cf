/**
 * Times of day and the five-prayer schedule.
 *
 * The component receives the five timings as "HH:MM" strings and, on every
 * tick, reads each with `split(':').map(Number)` and places it on today's
 * date with `setHours(hours, minutes, 0, 0)`. Here an instant of the day is
 * the number of milliseconds since local midnight, and reading a timing is a
 * function that reports malformed or missing input instead of producing NaN.
 */
module Clock {

  import opened Wrappers
  import opened Text

  const MsPerSecond: nat := 1000
  const MsPerMinute: nat := 60000
  const MsPerHour: nat := 3600000
  /** Length of a calendar day; "tomorrow at T" is T plus this. */
  const MsPerDay: nat := 86400000

  datatype HourMinute = HourMinute(hour: nat, minute: nat)

  /** A wall-clock time on a 24-hour dial; seconds and milliseconds are zero. */
  type TimeOfDay = t: HourMinute | t.hour < 24 && t.minute < 60 witness HourMinute(0, 0)

  /** Milliseconds from midnight to t, i.e. `setHours(h, m, 0, 0)` minus midnight. */
  function Millis(t: TimeOfDay): (ms: nat)
    ensures ms < MsPerDay
    ensures ms == (t.hour * 60 + t.minute) * MsPerMinute
    ensures ms == (t.hour * 3600 + t.minute * 60) * MsPerSecond
  {
    t.hour * MsPerHour + t.minute * MsPerMinute
  }

  /** Distinct times of day lie at distinct instants. */
  lemma MillisInjective(a: TimeOfDay, b: TimeOfDay)
    requires Millis(a) == Millis(b)
    ensures a == b
  {
  }

  /** `Number(piece)` for the pieces the model accepts: a non-empty run of digits. */
  function ReadNumber(piece: string): (r: Option<nat>)
    ensures r.Some? <==> piece != [] && AllDigits(piece)
    ensures r.Some? ==> r.value == DigitsValue(piece) && r == ParseInt(piece)
  {
    if piece != [] && AllDigits(piece) then Some(DigitsValue(piece)) else None
  }

  /** `Number` reads back the decimal text of every natural number. */
  lemma ReadNumberOfDecimalText(n: nat)
    ensures ReadNumber(DecimalText(n)) == Some(n)
  {
    DecimalTextValue(n);
  }

  /**
   * `const [hours, minutes] = timeStr.split(':').map(Number)`, with hours
   * and minutes checked to lie on the clock dial. Pieces after the second
   * are ignored, as the destructuring ignores them.
   */
  function ParseTime(timeStr: string): (r: Option<TimeOfDay>)
    ensures r.Some? ==> ':' in timeStr
    ensures r.Some? <==> var parts := SplitColon(timeStr);
      |parts| >= 2 && ReadNumber(parts[0]).Some? && ReadNumber(parts[1]).Some? &&
      ReadNumber(parts[0]).value < 24 && ReadNumber(parts[1]).value < 60
    ensures r.Some? ==> var parts := SplitColon(timeStr);
      |parts| >= 2 && ReadNumber(parts[0]) == Some(r.value.hour) && ReadNumber(parts[1]) == Some(r.value.minute)
  {
    var parts := SplitColon(timeStr);
    SplitAtFirstColon(timeStr);
    if |parts| < 2 then None
    else
      match (ReadNumber(parts[0]), ReadNumber(parts[1]))
      case (Some(h), Some(m)) =>
        if h < 24 && m < 60 then Some(HourMinute(h, m)) else None
      case _ => None
  }

  /** The zero-padded "HH:MM" form in which timings arrive. */
  function ClockText(t: TimeOfDay): string {
    Pad2(t.hour) + ":" + Pad2(t.minute)
  }

  /** The two pieces of an "HH:MM" text. */
  lemma SplitClockText(t: TimeOfDay)
    ensures SplitColon(ClockText(t)) == [Pad2(t.hour), Pad2(t.minute)]
  {
    SplitAtColon(Pad2(t.hour), Pad2(t.minute));
    SplitNoColon(Pad2(t.minute));
  }

  /** Reading a well-formed "HH:MM" timing gives back the time it writes. */
  lemma ParseClockText(t: TimeOfDay)
    ensures ParseTime(ClockText(t)) == Some(t)
  {
    SplitClockText(t);
  }

  /** Out-of-dial values are refused rather than rolled over to another hour. */
  lemma ParseTimeRejectsOutOfRange()
    ensures ParseTime("25:99") == None
    ensures ParseTime("12:60") == None
    ensures ParseTime("1230") == None
  {
    SplitAtColon("25", "99");
    SplitNoColon("99");
    SplitAtColon("12", "60");
    SplitNoColon("60");
    SplitNoColon("1230");
  }

  datatype Entry = Entry(name: string, time: TimeOfDay)

  /** The five timings, as the component stores them in `prayerTimes`. */
  datatype Schedule = Schedule(fajr: TimeOfDay, dhuhr: TimeOfDay, asr: TimeOfDay,
                               maghrib: TimeOfDay, isha: TimeOfDay)

  /** The prayer names in the order the `prayerTimes` object is built. */
  const PrayerNames: seq<string> := ["Fajr", "Dhuhr", "Asr", "Maghrib", "Isha"]

  /** `Object.entries(prayerTimes)`: name and time, in insertion order. */
  function Entries(s: Schedule): (es: seq<Entry>)
    ensures |es| == |PrayerNames| == 5
    ensures forall i :: 0 <= i < 5 ==> es[i].name == PrayerNames[i]
    ensures es[0].time == s.fajr
  {
    [Entry("Fajr", s.fajr), Entry("Dhuhr", s.dhuhr), Entry("Asr", s.asr),
     Entry("Maghrib", s.maghrib), Entry("Isha", s.isha)]
  }

  datatype ScheduleError =
    | MissingScheduleData(name: string)
    | MalformedTimeOfDay(name: string)

  /** The failure reported for a timing that is not readable. */
  function TimingError(timings: map<string, string>, name: string): ScheduleError {
    if name in timings then MalformedTimeOfDay(name) else MissingScheduleData(name)
  }

  /** A prayer's timing is present and well formed. */
  predicate Readable(timings: map<string, string>, name: string) {
    name in timings && ParseTime(timings[name]).Some?
  }

  /** names[i] is the first name, in order, whose timing is not readable. */
  predicate FirstUnreadable(timings: map<string, string>, names: seq<string>, i: int) {
    0 <= i < |names| && !Readable(timings, names[i]) &&
    forall j :: 0 <= j < i ==> Readable(timings, names[j])
  }

  /**
   * Reads the timings of the given names in order and stops at the first one
   * that is missing or malformed, reporting which.
   */
  function ReadTimings(timings: map<string, string>, names: seq<string>): (r: Result<seq<TimeOfDay>, ScheduleError>)
    ensures r.Ok? <==> forall i :: 0 <= i < |names| ==> Readable(timings, names[i])
    ensures r.Ok? ==> |r.value| == |names|
    ensures r.Ok? ==> forall i :: 0 <= i < |names| ==> ParseTime(timings[names[i]]) == Some(r.value[i])
    ensures r.Err? ==> exists i :: FirstUnreadable(timings, names, i) && r.error == TimingError(timings, names[i])
  {
    if names == [] then Ok([])
    else if !Readable(timings, names[0]) then
      assert FirstUnreadable(timings, names, 0);
      Err(TimingError(timings, names[0]))
    else
      match ReadTimings(timings, names[1..])
      case Ok(ts) =>
        assert forall i :: 1 <= i < |names| ==> names[i] == names[1..][i - 1];
        Ok([ParseTime(timings[names[0]]).value] + ts)
      case Err(e) =>
        var i :| FirstUnreadable(timings, names[1..], i) && e == TimingError(timings, names[1..][i]);
        assert FirstUnreadable(timings, names, i + 1);
        Err(e)
  }

  /**
   * Builds the schedule from the raw timings (`timings.Fajr`, … `timings.Isha`),
   * reporting the first prayer, in schedule order, whose timing is missing or
   * malformed.
   */
  function ReadSchedule(timings: map<string, string>): (r: Result<Schedule, ScheduleError>)
    ensures r.Ok? <==> forall i :: 0 <= i < 5 ==> Readable(timings, PrayerNames[i])
    ensures r.Ok? ==> forall i :: 0 <= i < 5 ==>
      ParseTime(timings[PrayerNames[i]]) == Some(Entries(r.value)[i].time)
    ensures r.Err? ==>
      exists i :: FirstUnreadable(timings, PrayerNames, i) && r.error == TimingError(timings, PrayerNames[i])
  {
    match ReadTimings(timings, PrayerNames)
    case Ok(ts) => Ok(Schedule(ts[0], ts[1], ts[2], ts[3], ts[4]))
    case Err(e) => Err(e)
  }

  /** The timings table of a schedule, each time written as "HH:MM". */
  function TimingsOf(s: Schedule): map<string, string> {
    map["Fajr" := ClockText(s.fajr), "Dhuhr" := ClockText(s.dhuhr), "Asr" := ClockText(s.asr),
        "Maghrib" := ClockText(s.maghrib), "Isha" := ClockText(s.isha)]
  }

  /** Reading the "HH:MM" table of a schedule gives back that schedule. */
  lemma ReadScheduleOfTimings(s: Schedule)
    ensures ReadSchedule(TimingsOf(s)) == Ok(s)
  {
    var t := TimingsOf(s);
    TimingsOfReadBack(s);
    var r := ReadSchedule(t);
    assert r.Ok?;
    var got := Entries(r.value);
    assert got[0].time == s.fajr && got[1].time == s.dhuhr && got[2].time == s.asr;
    assert got[3].time == s.maghrib && got[4].time == s.isha;
  }

  /** Each entry of the table of a schedule reads back as that prayer's time. */
  lemma TimingsOfReadBack(s: Schedule)
    ensures forall i :: 0 <= i < 5 ==>
      PrayerNames[i] in TimingsOf(s) && ParseTime(TimingsOf(s)[PrayerNames[i]]) == Some(Entries(s)[i].time)
  {
    var t := TimingsOf(s);
    ParseClockText(s.fajr);
    ParseClockText(s.dhuhr);
    ParseClockText(s.asr);
    ParseClockText(s.maghrib);
    ParseClockText(s.isha);
    assert t["Fajr"] == ClockText(s.fajr) && t["Dhuhr"] == ClockText(s.dhuhr);
    assert t["Asr"] == ClockText(s.asr) && t["Maghrib"] == ClockText(s.maghrib);
    assert t["Isha"] == ClockText(s.isha);
  }
}
