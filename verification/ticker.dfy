/**
 * One tick of the one-second timer: resolve the next prayer, split the
 * remaining time into hours, minutes and seconds, and decide whether the call
 * to prayer is played.
 */
module Ticker {

  import opened Wrappers
  import opened Text
  import opened Clock
  import opened Resolver

  /** `Math.trunc(a / b)`: the quotient rounded toward zero. */
  function JsQuot(a: int, b: int): int
    requires b > 0
  {
    if a >= 0 then a / b else -((-a) / b)
  }

  /**
   * JavaScript's `a % b`: the remainder carries the sign of the dividend, and
   * with the quotient rounded toward zero it makes up the dividend.
   */
  function JsRem(a: int, b: int): (r: int)
    requires b > 0
    ensures -b < r < b
    ensures a >= 0 ==> 0 <= r && r == a % b
    ensures a < 0 ==> r <= 0
    ensures a == b * JsQuot(a, b) + r
  {
    if a >= 0 then a % b else -((-a) % b)
  }

  /** The countdown fields: `totalSeconds`, `hrsLeft`, `minsLeft`, `secsLeft`. */
  datatype TimeLeft = TimeLeft(totalSeconds: int, hours: int, minutes: int, seconds: int)

  /**
   * `Math.floor(diffMs / 1000)` and its split into whole hours, minutes and
   * seconds. Dafny's `/` rounds down when the divisor is positive, as
   * `Math.floor` does; `%` is JavaScript's, written out with JsRem.
   */
  function SplitTimeLeft(diffMs: int): (c: TimeLeft)
    ensures c.totalSeconds * MsPerSecond <= diffMs < c.totalSeconds * MsPerSecond + MsPerSecond
    ensures diffMs >= 0 ==> c.hours * 3600 + c.minutes * 60 + c.seconds == c.totalSeconds
    ensures diffMs >= 0 ==> 0 <= c.hours && 0 <= c.minutes < 60 && 0 <= c.seconds < 60
  {
    var total := diffMs / 1000;
    HoursMinutesSeconds(total);
    TimeLeft(total, total / 3600, JsRem(total, 3600) / 60, JsRem(total, 60))
  }

  lemma HoursMinutesSeconds(total: int)
    ensures total >= 0 ==> (total / 3600) * 3600 + ((total % 3600) / 60) * 60 + total % 60 == total
    ensures 0 <= (total % 3600) / 60 < 60
  {
    var h, r := total / 3600, total % 3600;
    var m, sec := r / 60, r % 60;
    assert r == m * 60 + sec;
    assert total == (h * 60 + m) * 60 + sec;
    RemainderBySixty(total, h * 60 + m, sec);
  }

  /** The remainder by 60 is the only one below 60. */
  lemma RemainderBySixty(n: int, q: int, r: int)
    requires 0 <= r < 60 && n == q * 60 + r
    ensures n % 60 == r
  {
    var q', r' := n / 60, n % 60;
    assert (q - q') * 60 == r' - r;
  }

  /**
   * `totalSeconds === 0`, the condition under which the component plays the
   * call to prayer.
   */
  function FiresAsWritten(diffMs: int): (fire: bool)
    ensures fire <==> 0 <= diffMs < MsPerSecond
  {
    SplitTimeLeft(diffMs).totalSeconds == 0
  }

  /**
   * The call to prayer on the last tick at or before the prayer time: the
   * countdown, rounded up to whole seconds, is one second.
   */
  function Fires(diffMs: int): (fire: bool)
    ensures fire <==> 0 < diffMs && (diffMs + MsPerSecond - 1) / MsPerSecond == 1
  {
    0 < diffMs <= MsPerSecond
  }

  /** The k-th tick of a timer that first ticked at `phase` and then every second. */
  function TickAt(phase: int, k: int): int {
    phase + k * MsPerSecond
  }

  /** At tick k, the prayer at `target` is still ahead and the as-written condition holds. */
  predicate FiresAsWrittenAtTick(target: int, phase: int, k: int) {
    target - TickAt(phase, k) > 0 && FiresAsWritten(target - TickAt(phase, k))
  }

  /** At tick k, the prayer at `target` is still ahead and the corrected condition holds. */
  predicate FiresAtTick(target: int, phase: int, k: int) {
    target - TickAt(phase, k) > 0 && Fires(target - TickAt(phase, k))
  }

  /**
   * As written, a timer ticking exactly once a second plays the call for a
   * prayer only if its ticks are not aligned with the prayer's time to the
   * millisecond; when they are, no tick ever plays it.
   */
  lemma AsWrittenMissesAlignedTicks(target: int, phase: int)
    ensures (target - phase) % MsPerSecond == 0 ==> forall k :: !FiresAsWrittenAtTick(target, phase, k)
    ensures (target - phase) % MsPerSecond != 0 ==> FiresAsWrittenAtTick(target, phase, (target - phase) / MsPerSecond)
  {
    var d := target - phase;
    if d % MsPerSecond == 0 {
      forall k ensures !FiresAsWrittenAtTick(target, phase, k) {
        var q := d / MsPerSecond;
        assert target - TickAt(phase, k) == (q - k) * MsPerSecond;
      }
    } else {
      var k := d / MsPerSecond;
      assert target - TickAt(phase, k) == d % MsPerSecond;
    }
  }

  /** The tick on which the corrected condition plays the call for `target`. */
  function FiringTick(target: int, phase: int): int {
    (target - phase - 1) / MsPerSecond
  }

  /**
   * With the corrected condition, a timer ticking exactly once a second plays
   * the call for a prayer on exactly one tick, whatever its phase.
   */
  lemma {:induction false} FiresExactlyOnce(target: int, phase: int)
    ensures FiresAtTick(target, phase, FiringTick(target, phase))
    ensures forall k :: FiresAtTick(target, phase, k) ==> k == FiringTick(target, phase)
  {
    var d := target - phase;
    var k0 := FiringTick(target, phase);
    assert target - TickAt(phase, k0) == (d - 1) % MsPerSecond + 1;
    forall k | FiresAtTick(target, phase, k) ensures k == k0 {
      var e := target - TickAt(phase, k);
      assert 0 < e <= MsPerSecond;
      assert d - 1 == k * MsPerSecond + (e - 1);
      assert 0 <= e - 1 < MsPerSecond;
    }
  }

  /**
   * A prayer less than a second ahead is the one the scan picks, up to a tie
   * with another prayer at the same time, so the corrected condition holds
   * for the resolved countdown on that tick.
   */
  lemma WithinASecondIsResolved(s: Schedule, now: int, k: int, u: Upcoming)
    requires 0 <= k < 5 && IsInstantOfDay(now) && Resolves(s, now, u)
    requires 0 < Diff(s, now, k) <= MsPerSecond
    ensures u.diffMs == Diff(s, now, k)
    ensures Fires(u.diffMs)
  {
    assert AnyAheadToday(s, now);
    var k' :| 0 <= k' < 5 && IsNearestAmong(s, now, k', 5) && u == Upcoming(Entries(s)[k'].name, Diff(s, now, k'));
    MinuteGrid(Entries(s)[k].time, Entries(s)[k'].time);
  }

  /** Two times of day less than a second apart are the same instant: timings lie on whole minutes. */
  lemma MinuteGrid(a: TimeOfDay, b: TimeOfDay)
    requires 0 <= Millis(a) - Millis(b) < MsPerSecond
    ensures Millis(a) == Millis(b)
  {
    var x, y := a.hour * 60 + a.minute, b.hour * 60 + b.minute;
    assert Millis(a) - Millis(b) == (x - y) * MsPerMinute;
  }

  /**
   * On a timer ticking exactly once a second, the tick on which the
   * corrected condition is due for prayer k (`FiringTick`) resolves to a
   * countdown that fires, provided that tick falls within the prayer's day.
   */
  lemma TimerFiresForEachPrayer(s: Schedule, phase: int, k: int, u: Upcoming)
    requires 0 <= k < 5
    requires var now := TickAt(phase, FiringTick(Millis(Entries(s)[k].time), phase));
             IsInstantOfDay(now) && Resolves(s, now, u)
    ensures Fires(u.diffMs)
  {
    var target := Millis(Entries(s)[k].time);
    var now := TickAt(phase, FiringTick(target, phase));
    FiresExactlyOnce(target, phase);
    assert Diff(s, now, k) == target - now;
    WithinASecondIsResolved(s, now, k, u);
  }

  /**
   * At an instant on a whole second, whatever prayer is next, the as-written
   * condition does not hold: every timing lies on a whole minute, so the time
   * left is a positive multiple of a second.
   */
  lemma AlignedInstantNeverFires(s: Schedule, now: int, u: Upcoming)
    requires IsInstantOfDay(now) && Resolves(s, now, u)
    requires now % MsPerSecond == 0
    ensures !FiresAsWritten(u.diffMs)
  {
    ResolvesCases(s, now, u);
    var t: TimeOfDay;
    var base: int;
    if AnyAheadToday(s, now) {
      var k :| 0 <= k < 5 && IsNearestAmong(s, now, k, 5) && u == Upcoming(Entries(s)[k].name, Diff(s, now, k));
      t, base := Entries(s)[k].time, 0;
    } else {
      t, base := s.fajr, 86400;
    }
    var secs := base + t.hour * 3600 + t.minute * 60;
    assert u.diffMs == secs * MsPerSecond - now;
    assert now == (now / MsPerSecond) * MsPerSecond;
    WholeSecondsApart(secs, now / MsPerSecond);
  }

  /** Two instants on whole seconds that differ at all differ by a second or more. */
  lemma WholeSecondsApart(a: int, b: int)
    ensures a * MsPerSecond - b * MsPerSecond > 0 ==> a * MsPerSecond - b * MsPerSecond >= MsPerSecond
  {
    assert a * MsPerSecond - b * MsPerSecond == (a - b) * MsPerSecond;
  }

  /**
   * The concrete miss: Dhuhr at 12:00, timer ticking at 11:59:59.000 and
   * 12:00:00.000. The first tick sees one second left, the second already
   * counts down to Asr; the as-written condition holds on neither, the
   * corrected one on the first.
   */
  lemma MissedDhuhr()
    ensures var s := Schedule(HourMinute(6, 0), HourMinute(12, 0), HourMinute(15, 0),
                              HourMinute(18, 0), HourMinute(20, 0));
            var before, at := 12 * MsPerHour - MsPerSecond, 12 * MsPerHour;
            Resolves(s, before, Upcoming("Dhuhr", MsPerSecond)) && !FiresAsWritten(MsPerSecond) &&
            Resolves(s, at, Upcoming("Asr", 3 * MsPerHour)) && !FiresAsWritten(3 * MsPerHour) &&
            Fires(MsPerSecond)
  {
    var s := Schedule(HourMinute(6, 0), HourMinute(12, 0), HourMinute(15, 0),
                      HourMinute(18, 0), HourMinute(20, 0));
    assert IsNearestAmong(s, 12 * MsPerHour - MsPerSecond, 1, 5);
    assert IsNearestAmong(s, 12 * MsPerHour, 2, 5);
  }

  /** What the tick hands to the display: `{ name, timeLeft }`. */
  datatype Shown = Shown(name: string, timeLeft: string)

  /** The `${hrsLeft}h ${minsLeft}m ${secsLeft}s` text, which reads back as the three fields. */
  function TimeLeftText(c: TimeLeft): (text: string)
    requires c.hours >= 0 && c.minutes >= 0 && c.seconds >= 0
    ensures ReadTimeLeft(text) == Some((c.hours as nat, c.minutes as nat, c.seconds as nat))
  {
    ReadTimeLeftTemplate(c.hours, c.minutes, c.seconds);
    DecimalText(c.hours) + "h " + DecimalText(c.minutes) + "m " + DecimalText(c.seconds) + "s"
  }

  /**
   * A number followed by a unit mark: the leading digits of `text`, which
   * must be there, and what follows them once `mark` is stripped.
   */
  function ReadField(text: string, mark: string): Option<(nat, string)> {
    var digits := DigitPrefix(text);
    var n := |digits|;
    if digits != [] && n + |mark| <= |text| && text[n..n + |mark|] == mark
    then Some((DigitsValue(digits), text[n + |mark|..]))
    else None
  }

  /** Reads "Xh Ym Zs" back into its hours, minutes and seconds. */
  function ReadTimeLeft(text: string): Option<(nat, nat, nat)> {
    match ReadField(text, "h ")
    case None => None
    case Some((h, rest)) =>
      match ReadField(rest, "m ")
      case None => None
      case Some((m, rest')) =>
        match ReadField(rest', "s")
        case Some((sec, "")) => Some((h, m, sec))
        case _ => None
  }

  /** A number's decimal text followed by a mark that starts with a non-digit reads back as that number. */
  lemma ReadDecimalField(n: nat, mark: string, rest: string)
    requires mark != [] && !IsDigit(mark[0])
    ensures ReadField(DecimalText(n) + mark + rest, mark) == Some((n, rest))
  {
    var digits := DecimalText(n);
    var text := digits + mark + rest;
    assert text == digits + (mark + rest);
    DigitPrefixOfDigits(digits, mark + rest);
    DecimalTextValue(n);
    assert text[|digits|..|digits| + |mark|] == mark;
    assert text[|digits| + |mark|..] == rest;
  }

  /** The countdown template, on any three numbers, reads back as those numbers. */
  lemma ReadTimeLeftTemplate(h: nat, m: nat, sec: nat)
    ensures var text := DecimalText(h) + "h " + DecimalText(m) + "m " + DecimalText(sec) + "s";
            ReadTimeLeft(text) == Some((h, m, sec))
  {
    var tail2 := DecimalText(sec) + "s";
    var tail1 := DecimalText(m) + "m " + tail2;
    var text := DecimalText(h) + "h " + DecimalText(m) + "m " + DecimalText(sec) + "s";
    assert text == DecimalText(h) + "h " + tail1;
    ReadDecimalField(h, "h ", tail1);
    ReadDecimalField(m, "m ", tail2);
    assert tail2 == DecimalText(sec) + "s" + "";
    ReadDecimalField(sec, "s", "");
  }

  /**
   * One timer tick: the next prayer, the countdown text shown for it, and
   * whether the call to prayer is played on this tick.
   */
  method Tick(s: Schedule, now: int) returns (shown: Shown, fire: bool)
    requires IsInstantOfDay(now)
    ensures exists u :: (Resolves(s, now, u) && u.diffMs > 0 &&
                         shown == Shown(u.name, TimeLeftText(SplitTimeLeft(u.diffMs))) &&
                         fire == Fires(u.diffMs))
  {
    var u := ResolveNext(s, now);
    var c := SplitTimeLeft(u.diffMs);
    fire := Fires(u.diffMs);
    shown := Shown(u.name, TimeLeftText(c));
  }
}
