/**
 * `format12Hour`: the 12-hour text shown on each prayer card for its 24-hour
 * "HH:MM" timing, together with a reader for that text that recovers the
 * hour, the minute text and the AM/PM half of the day.
 */
module Format12 {

  import opened Wrappers
  import opened Text
  import opened Clock

  /**
   * `hour % 12 || 12` for the result of `parseInt`. Where `parseInt` found no
   * digits it yields NaN; `NaN % 12` is NaN, which is falsy, so `|| 12`
   * replaces it.
   */
  function Hour12(hour: Option<nat>): (h: nat)
    ensures 1 <= h <= 12
    ensures hour.Some? ==> h % 12 == hour.value % 12
    ensures hour.None? ==> h == 12
  {
    if hour.Some? && hour.value % 12 != 0 then hour.value % 12 else 12
  }

  /**
   * The minute text `format12Hour` passes through: the colon-free run right
   * after the first colon, or `undefined` when there is no colon.
   */
  function MinuteText(time24: string): (r: string)
    ensures ':' !in r
    ensures ':' !in time24 ==> r == "undefined"
    ensures ':' in time24 ==> var n := |SplitColon(time24)[0]|;
      n < |time24| && time24[n] == ':' && r == SplitColon(time24[n + 1..])[0]
  {
    var parts := SplitColon(time24);
    SplitAtFirstColon(time24);
    if |parts| >= 2 then parts[1] else "undefined"
  }

  /**
   * The hour `format12Hour` reads: `parseInt` of the text before the first
   * colon, which is `parseInt` of the whole timing, since it stops at the
   * colon anyway.
   */
  function HourOf(time24: string): (r: Option<nat>)
    ensures r == ParseInt(time24)
    ensures r.None? <==> time24 == [] || !IsDigit(time24[0])
  {
    var head := SplitColon(time24)[0];
    SplitColonHead(time24);
    DigitPrefixOfPrefix(head, time24);
    ParseInt(head)
  }

  /** The `${hour12}:${minute} ${ampm}` template, which reads back as its three parts. */
  function Display12(hour12: nat, minute: string, pm: bool): (s: string)
    ensures Read12Hour(s) == Some(Reading12(hour12, minute, pm))
  {
    ReadDisplay12(hour12, minute, pm);
    DecimalText(hour12) + ":" + minute + " " + (if pm then "PM" else "AM")
  }

  /** `format12Hour(time24)`: the empty string stays empty. */
  function Format12Hour(time24: string): (r: string)
    ensures r == "" <==> time24 == ""
  {
    if time24 == "" then ""
    else
      var hour := HourOf(time24);
      Display12(Hour12(hour), MinuteText(time24), hour.Some? && hour.value >= 12)
  }

  /** The parts of a 12-hour display text. */
  datatype Reading12 = Reading12(hour12: nat, minute: string, pm: bool)

  /**
   * Reads "h:minute AM" / "h:minute PM": the digits before the first colon,
   * the text between that colon and the final " AM" or " PM", and the half of
   * the day.
   */
  function Read12Hour(r: string): Option<Reading12> {
    var head := SplitColon(r)[0];
    var n := |head|;
    if n > 0 && AllDigits(head) && n + 4 <= |r| && r[n] == ':' && r[|r| - 3] == ' ' &&
       (r[|r| - 2..] == "AM" || r[|r| - 2..] == "PM")
    then Some(Reading12(DigitsValue(head), r[n + 1..|r| - 3], r[|r| - 2..] == "PM"))
    else None
  }

  /** The hour on a 24-hour dial that a 12-hour reading denotes. */
  function To24Hour(rd: Reading12): nat {
    rd.hour12 % 12 + (if rd.pm then 12 else 0)
  }

  /** Reading the template text back recovers the hour, the minute text and the half of the day. */
  lemma ReadDisplay12(hour12: nat, minute: string, pm: bool)
    ensures var r := DecimalText(hour12) + ":" + minute + " " + (if pm then "PM" else "AM");
            Read12Hour(r) == Some(Reading12(hour12, minute, pm))
  {
    var digits := DecimalText(hour12);
    var suffix := if pm then "PM" else "AM";
    DecimalTextValue(hour12);
    ReadTemplate(digits, minute, suffix);
  }

  /** The layout facts `Read12Hour` checks, for digits, a minute text and a two-letter suffix. */
  lemma ReadTemplate(digits: string, minute: string, suffix: string)
    requires digits != [] && AllDigits(digits) && ':' !in digits
    requires suffix == "AM" || suffix == "PM"
    ensures var r := digits + ":" + minute + " " + suffix;
            Read12Hour(r) == Some(Reading12(DigitsValue(digits), minute, suffix == "PM"))
  {
    TemplateLayout(digits, minute, suffix);
    SplitAtColon(digits, minute + " " + suffix);
  }

  /** Where each part of the template text sits. */
  lemma TemplateLayout(digits: string, minute: string, suffix: string)
    requires |suffix| == 2
    ensures var r := digits + ":" + minute + " " + suffix;
            var n := |digits|;
            r == digits + ":" + (minute + " " + suffix) && |r| == n + |minute| + 4 &&
            r[n] == ':' && r[|r| - 3] == ' ' && r[n + 1..|r| - 3] == minute && r[|r| - 2..] == suffix
  {
    var r := digits + ":" + minute + " " + suffix;
    var n := |digits|;
    assert r[n + 1..|r| - 3] == minute;
  }

  /**
   * Whatever the non-empty input, the text `format12Hour` produces reads back
   * as an hour between 1 and 12 congruent to the parsed hour modulo 12 (12
   * when there is no number), the input's minute text unchanged, and PM
   * exactly when the parsed hour is at least 12.
   */
  lemma Format12HourReadBack(time24: string)
    requires time24 != ""
    ensures Read12Hour(Format12Hour(time24)).Some?
    ensures var rd := Read12Hour(Format12Hour(time24)).value;
            1 <= rd.hour12 <= 12 && rd.minute == MinuteText(time24) &&
            (rd.pm <==> HourOf(time24).Some? && HourOf(time24).value >= 12) &&
            (HourOf(time24).Some? ==> rd.hour12 % 12 == HourOf(time24).value % 12) &&
            (HourOf(time24).None? ==> rd.hour12 == 12)
  {
  }

  /** On the 24-hour dial the 12-hour hour and the half of the day determine the hour. */
  lemma To24HourOfHour12(h: nat)
    requires h < 24
    ensures To24Hour(Reading12(Hour12(Some(h)), "", h >= 12)) == h
  {
    if h >= 12 {
      RemainderByTwelve(h, 1, h - 12);
    } else {
      RemainderByTwelve(h, 0, h);
    }
  }

  lemma RemainderByTwelve(n: int, q: int, r: int)
    requires 0 <= r < 12 && n == q * 12 + r
    ensures n % 12 == r
  {
    var q', r' := n / 12, n % 12;
    assert (q - q') * 12 == r' - r;
  }

  /**
   * For a well-formed "HH:MM" timing the 12-hour text is a faithful display:
   * it reads back as the same hour of the day and the same two-digit minute.
   */
  lemma Format12HourOfClockText(t: TimeOfDay)
    ensures Read12Hour(Format12Hour(ClockText(t))).Some?
    ensures var rd := Read12Hour(Format12Hour(ClockText(t))).value;
            To24Hour(rd) == t.hour && rd.minute == Pad2(t.minute) && (rd.pm <==> t.hour >= 12)
  {
    var text := ClockText(t);
    SplitClockText(t);
    assert HourOf(text) == Some(t.hour);
    assert MinuteText(text) == Pad2(t.minute);
    To24HourOfHour12(t.hour);
  }
}
