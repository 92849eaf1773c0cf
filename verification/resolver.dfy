/**
 * The next-prayer scan run on every tick: among today's five timings keep the
 * one with the smallest strictly positive distance from now (the first such
 * one on ties, since the comparison is a strict `<`), and when none lies ahead
 * fall back to Fajr on the next day.
 */
module Resolver {

  import opened Wrappers
  import opened Clock

  /** Label reported when every timing of today has passed. */
  const FajrTomorrow: string := "Fajr (Tomorrow)"

  /** The `upcomingPrayer` record: a name and the milliseconds until it. */
  datatype Upcoming = Upcoming(name: string, diffMs: int)

  /** An instant of today: milliseconds since local midnight. */
  predicate IsInstantOfDay(now: int) {
    0 <= now < MsPerDay
  }

  /** `prayerDate.getTime() - now.getTime()` for the k-th entry. */
  function Diff(s: Schedule, now: int, k: int): (d: int)
    requires 0 <= k < 5
    ensures d > 0 <==> Millis(Entries(s)[k].time) > now
    ensures IsInstantOfDay(now) ==> 0 < d + MsPerDay && d < MsPerDay
  {
    Millis(Entries(s)[k].time) - now
  }

  /**
   * Among the first n entries, entry k is strictly ahead of now, no entry
   * ahead of now is nearer, and every earlier entry ahead of now is strictly
   * farther (so the first of equally near entries is the one chosen).
   */
  predicate IsNearestAmong(s: Schedule, now: int, k: int, n: int)
    requires 0 <= n <= 5
  {
    0 <= k < n && Diff(s, now, k) > 0 &&
    (forall j :: 0 <= j < n && Diff(s, now, j) > 0 ==> Diff(s, now, k) <= Diff(s, now, j)) &&
    (forall j :: 0 <= j < k && Diff(s, now, j) > 0 ==> Diff(s, now, k) < Diff(s, now, j))
  }

  /** Some prayer of today is still strictly ahead of now. */
  predicate AnyAheadToday(s: Schedule, now: int) {
    exists k :: 0 <= k < 5 && Diff(s, now, k) > 0
  }

  /** Any entry of today named by the scan is one of the five, and an entry ahead is at most a day away. */
  lemma ResolvesShape(s: Schedule, now: int, u: Upcoming)
    ensures forall k :: 0 <= k < 5 && IsNearestAmong(s, now, k, 5) && u == Upcoming(Entries(s)[k].name, Diff(s, now, k)) ==>
      u.name in PrayerNames && (IsInstantOfDay(now) ==> 0 < u.diffMs <= MsPerDay)
    ensures !AnyAheadToday(s, now) && IsInstantOfDay(now) ==> Millis(s.fajr) <= now
  {
    if !AnyAheadToday(s, now) {
      assert Diff(s, now, 0) <= 0;
    }
  }

  /** What the scan must produce for schedule s at instant now. */
  predicate Resolves(s: Schedule, now: int, u: Upcoming): (r: bool)
    ensures r ==> u.name == FajrTomorrow || u.name in PrayerNames
    ensures r && IsInstantOfDay(now) ==> 0 < u.diffMs <= MsPerDay
  {
    ResolvesShape(s, now, u);
    if AnyAheadToday(s, now) then
      exists k :: 0 <= k < 5 && IsNearestAmong(s, now, k, 5) && u == Upcoming(Entries(s)[k].name, Diff(s, now, k))
    else
      u == Upcoming(FajrTomorrow, MsPerDay + Millis(s.fajr) - now)
  }

  /**
   * The scan over `Object.entries(prayerTimes)` followed by the tomorrow
   * fallback. `best == None` plays the part of `upcomingPrayer === null`,
   * which is exactly when `minDiff` is still `Infinity`.
   */
  method ResolveNext(s: Schedule, now: int) returns (u: Upcoming)
    requires IsInstantOfDay(now)
    ensures Resolves(s, now, u)
    ensures 0 < u.diffMs <= MsPerDay
  {
    var entries := Entries(s);
    var best: Option<Upcoming> := None;
    ghost var bestIndex := -1;
    for i := 0 to |entries|
      invariant best.None? <==> forall j :: 0 <= j < i ==> Diff(s, now, j) <= 0
      invariant best.Some? ==> IsNearestAmong(s, now, bestIndex, i) &&
                               best.value == Upcoming(entries[bestIndex].name, Diff(s, now, bestIndex))
    {
      var diffMs := Millis(entries[i].time) - now;
      assert diffMs == Diff(s, now, i);
      if diffMs > 0 && (best.None? || diffMs < best.value.diffMs) {
        best := Some(Upcoming(entries[i].name, diffMs));
        bestIndex := i;
      }
    }
    if best.None? {
      assert Diff(s, now, 0) <= 0;
      u := Upcoming(FajrTomorrow, MsPerDay + Millis(s.fajr) - now);
    } else {
      u := best.value;
      assert AnyAheadToday(s, now) by { assert Diff(s, now, bestIndex) > 0; }
    }
  }

  /** The nearest entry ahead of now is unique: the result is determined. */
  lemma NearestUnique(s: Schedule, now: int, k1: int, k2: int)
    requires IsNearestAmong(s, now, k1, 5) && IsNearestAmong(s, now, k2, 5)
    ensures k1 == k2
  {
  }

  /** The scan has exactly one correct answer for every schedule and instant. */
  lemma ResolvesUnique(s: Schedule, now: int, u1: Upcoming, u2: Upcoming)
    requires Resolves(s, now, u1) && Resolves(s, now, u2)
    ensures u1 == u2
  {
    if AnyAheadToday(s, now) {
      var k1 :| 0 <= k1 < 5 && IsNearestAmong(s, now, k1, 5) && u1 == Upcoming(Entries(s)[k1].name, Diff(s, now, k1));
      var k2 :| 0 <= k2 < 5 && IsNearestAmong(s, now, k2, 5) && u2 == Upcoming(Entries(s)[k2].name, Diff(s, now, k2));
      NearestUnique(s, now, k1, k2);
    }
  }

  /**
   * The fallback is reported exactly when nothing of today lies ahead, and
   * otherwise the answer is a prayer of today that is no farther than any
   * other one ahead.
   */
  lemma ResolvesCases(s: Schedule, now: int, u: Upcoming)
    requires IsInstantOfDay(now) && Resolves(s, now, u)
    ensures u.name == FajrTomorrow <==> !AnyAheadToday(s, now)
    ensures u.name == FajrTomorrow ==> u.diffMs == MsPerDay + Millis(s.fajr) - now
    ensures u.name != FajrTomorrow ==> u.name in PrayerNames
    ensures u.name != FajrTomorrow ==>
      forall j :: 0 <= j < 5 && Diff(s, now, j) > 0 ==> u.diffMs <= Diff(s, now, j)
  {
    if AnyAheadToday(s, now) {
      var k :| 0 <= k < 5 && IsNearestAmong(s, now, k, 5) && u == Upcoming(Entries(s)[k].name, Diff(s, now, k));
      assert u.name == PrayerNames[k];
    }
  }

  /** After the last prayer of the day the countdown runs to Fajr on the next day. */
  lemma AfterIshaCountsToTomorrowsFajr(s: Schedule, now: int, u: Upcoming)
    requires IsInstantOfDay(now) && Resolves(s, now, u)
    requires forall k :: 0 <= k < 5 ==> Millis(Entries(s)[k].time) <= now
    ensures u == Upcoming(FajrTomorrow, MsPerDay + Millis(s.fajr) - now)
    ensures u.diffMs > 0
  {
  }

  /**
   * Worked case: Fajr 06:00, Dhuhr 12:00, Asr 15:00, Maghrib 18:00, Isha 20:00,
   * at 13:00 the next prayer is Asr, two hours away; at 21:00 it is Fajr on the
   * next day, nine hours away.
   */
  lemma ExampleDay()
    ensures var s := Schedule(HourMinute(6, 0), HourMinute(12, 0), HourMinute(15, 0),
                              HourMinute(18, 0), HourMinute(20, 0));
            Resolves(s, 13 * MsPerHour, Upcoming("Asr", 2 * MsPerHour)) &&
            Resolves(s, 21 * MsPerHour, Upcoming(FajrTomorrow, 9 * MsPerHour))
  {
    var s := Schedule(HourMinute(6, 0), HourMinute(12, 0), HourMinute(15, 0),
                      HourMinute(18, 0), HourMinute(20, 0));
    assert IsNearestAmong(s, 13 * MsPerHour, 2, 5);
    assert Diff(s, 13 * MsPerHour, 2) > 0;
  }
}
