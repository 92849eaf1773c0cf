/**
 * The completion ledger and point counter of one session, and the reward
 * tiers they unlock. Both start empty at every load of the component; nothing
 * is persisted.
 */
module Progress {

  import opened Clock

  /** Points awarded for each prayer marked as done. */
  const PointsPerPrayer: nat := 15

  /** A reward tier of the `REWARDS` table: a points threshold and a title. */
  datatype Reward = Reward(points: nat, title: string)

  const Rewards: seq<Reward> := [
    Reward(50, "\U{1F37F} Popcorn Time!"),
    Reward(150, "\U{1F6DD} Park Trip!"),
    Reward(500, "\U{1F9F8} Pick a New Toy!")
  ]

  /**
   * For each tier, in table order, whether `points >= reward.points`
   * highlights it. The tests are independent, but since the thresholds
   * ascend, the unlocked tiers always form a prefix of the table.
   */
  function UnlockedTiers(points: int): (r: seq<bool>)
    ensures |r| == |Rewards|
    ensures forall i, j :: 0 <= i < j < |r| && r[j] ==> r[i]
    ensures r[0] <==> points >= 50
    ensures r[|r| - 1] <==> points >= 500
  {
    seq(|Rewards|, i requires 0 <= i < |Rewards| => points >= Rewards[i].points)
  }

  /** More points never lock a tier that fewer points unlocked. */
  lemma UnlockedTiersMonotone(p: int, q: int)
    requires p <= q
    ensures forall i :: 0 <= i < |Rewards| && UnlockedTiers(p)[i] ==> UnlockedTiers(q)[i]
  {
  }

  predicate NoDuplicates(s: seq<string>) {
    forall i, j :: 0 <= i < j < |s| ==> s[i] != s[j]
  }

  /** A duplicate-free list drawn from a set is no longer than the set is large. */
  lemma {:induction false} DistinctWithinBound(s: seq<string>, u: set<string>)
    requires NoDuplicates(s)
    requires forall x :: x in s ==> x in u
    ensures |s| <= |u|
  {
    if s != [] {
      var rest := s[1..];
      forall x | x in rest ensures x in u - {s[0]} {
        var j :| 0 <= j < |rest| && rest[j] == x;
        assert s[j + 1] == x;
      }
      DistinctWithinBound(rest, u - {s[0]});
    }
  }

  /** The component state `completedToday` and `points`. */
  class Tracker {
    var completedToday: seq<string>
    var points: int

    /**
     * Every completed prayer is one of the five and is listed once, and the
     * points are exactly the award for the completions so far.
     */
    ghost predicate Valid()
      reads this
    {
      NoDuplicates(completedToday) &&
      (forall n :: n in completedToday ==> n in PrayerNames) &&
      points == PointsPerPrayer * |completedToday|
    }

    /** A fresh session: nothing completed and no points. */
    constructor ()
      ensures Valid()
      ensures completedToday == [] && points == 0
    {
      completedToday := [];
      points := 0;
    }

    /** `completedToday.includes(prayer)`: whether the prayer's button is disabled. */
    predicate IsCompleted(name: string): (r: bool)
      reads this
      ensures r && Valid() ==> name in PrayerNames && points >= PointsPerPrayer
    {
      name in completedToday
    }

    /**
     * `handleCompletePrayer`: the first completion of a prayer records it and
     * awards the points; any later one changes nothing.
     */
    method CompletePrayer(name: string)
      requires Valid()
      requires name in PrayerNames
      modifies this
      ensures Valid()
      ensures old(IsCompleted(name)) ==> completedToday == old(completedToday) && points == old(points)
      ensures !old(IsCompleted(name)) ==>
        completedToday == old(completedToday) + [name] && points == old(points) + PointsPerPrayer
      ensures IsCompleted(name)
      ensures old(points) <= points
      ensures forall i :: 0 <= i < |Rewards| && old(UnlockedTiers(points))[i] ==> UnlockedTiers(points)[i]
    {
      if name !in completedToday {
        completedToday := completedToday + [name];
        points := points + PointsPerPrayer;
      }
    }

    /**
     * Completing the same prayer twice in a row awards its points once: the
     * second call is a no-op.
     */
    method CompleteTwice(name: string)
      requires Valid()
      requires name in PrayerNames
      modifies this
      ensures Valid() && IsCompleted(name)
      ensures completedToday == if old(IsCompleted(name)) then old(completedToday) else old(completedToday) + [name]
      ensures points == old(points) + (if old(IsCompleted(name)) then 0 else PointsPerPrayer)
    {
      CompletePrayer(name);
      CompletePrayer(name);
    }

    /**
     * A session can earn at most one award per prayer, 75 points, so of the
     * three tiers only the first can ever be unlocked.
     */
    lemma PointsBounded()
      requires Valid()
      ensures 0 <= points <= PointsPerPrayer * |PrayerNames|
      ensures !UnlockedTiers(points)[1] && !UnlockedTiers(points)[2]
    {
      var names := set n | n in PrayerNames;
      assert names == {"Fajr", "Dhuhr", "Asr", "Maghrib", "Isha"};
      DistinctWithinBound(completedToday, names);
    }
  }
}
