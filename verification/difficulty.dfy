/**
 The difficulty scheduler: the delay, in milliseconds, before the next circle
 spawns, as a step function of the score. The delay shrinks from 1000 ms
 below 50 points down to a floor of 25 ms from 1300 points on.
 */
module Difficulty {

  /** Delay before the next spawn, written as the cascade of comparisons the
      game uses. The two last branches both give the 25 ms floor. */
  function AdjustInterval(score: int): (ms: int)
    ensures 25 <= ms <= 1000
    ensures score < 50 ==> ms == 1000
    ensures score >= 1300 ==> ms == 25
  {
    if score < 50 then 1000
    else if score < 100 then 900
    else if score < 150 then 800
    else if score < 200 then 700
    else if score < 250 then 600
    else if score < 300 then 500
    else if score < 400 then 450
    else if score < 500 then 400
    else if score < 600 then 350
    else if score < 700 then 300
    else if score < 800 then 250
    else if score < 900 then 200
    else if score < 1000 then 150
    else if score < 1100 then 100
    else if score < 1200 then 75
    else if score < 1300 then 50
    else if score < 1400 then 25
    else 25
  }

  /** The score thresholds of the schedule, in increasing order. */
  const Thresholds: seq<int> :=
    [50, 100, 150, 200, 250, 300, 400, 500, 600, 700, 800, 900, 1000, 1100, 1200, 1300, 1400]

  /** Delays[i] applies to scores below Thresholds[i] and at or above the
      threshold before it. */
  const Delays: seq<int> :=
    [1000, 900, 800, 700, 600, 500, 450, 400, 350, 300, 250, 200, 150, 100, 75, 50, 25]

  /** The delay applied at or above the last threshold. */
  const FloorDelay: int := 25

  /** A schedule whose thresholds increase and whose delays never increase
      and never fall below the floor. */
  ghost predicate WellFormedSchedule(th: seq<int>, ds: seq<int>, floor: int)
  {
    && |th| == |ds|
    && (forall i, j :: 0 <= i < j < |th| ==> th[i] < th[j])
    && (forall i, j :: 0 <= i < j < |ds| ==> ds[i] >= ds[j])
    && (forall i :: 0 <= i < |ds| ==> ds[i] >= floor)
  }

  /** A generic step schedule, independent of the cascade above: the delay of
      the first threshold the score lies below, or the floor past them all. */
  function StepDelay(score: int, th: seq<int>, ds: seq<int>, floor: int): (ms: int)
    requires |th| == |ds|
    decreases |th|
  {
    if |th| == 0 then floor
    else if score < th[0] then ds[0]
    else StepDelay(score, th[1..], ds[1..], floor)
  }

  /** The schedule of the game is well formed. */
  lemma ScheduleIsWellFormed()
    ensures WellFormedSchedule(Thresholds, Delays, FloorDelay)
  {
  }

  /** A step delay lies between the floor and the first delay of the schedule. */
  lemma {:induction false} StepDelayBounds(score: int, th: seq<int>, ds: seq<int>, floor: int)
    requires WellFormedSchedule(th, ds, floor)
    ensures floor <= StepDelay(score, th, ds, floor)
    ensures |ds| > 0 ==> StepDelay(score, th, ds, floor) <= ds[0]
    decreases |th|
  {
    if |th| > 0 && score >= th[0] {
      StepDelayBounds(score, th[1..], ds[1..], floor);
      if |ds| > 1 {
        assert ds[1..][0] == ds[1] <= ds[0];
      }
    }
  }

  /** Any well-formed step schedule is non-increasing in the score. */
  lemma {:induction false} StepDelayMonotone(s1: int, s2: int, th: seq<int>, ds: seq<int>, floor: int)
    requires WellFormedSchedule(th, ds, floor)
    requires s1 <= s2
    ensures StepDelay(s1, th, ds, floor) >= StepDelay(s2, th, ds, floor)
    decreases |th|
  {
    if |th| == 0 {
    } else if s1 < th[0] {
      StepDelayBounds(s2, th, ds, floor);
    } else {
      StepDelayMonotone(s1, s2, th[1..], ds[1..], floor);
    }
  }

  /** A step delay is the delay of the band the score falls in: the first
      threshold above the score picks its delay. */
  lemma {:induction false} StepDelayInBand(score: int, th: seq<int>, ds: seq<int>, floor: int, k: nat)
    requires WellFormedSchedule(th, ds, floor)
    requires k <= |th|
    requires forall i :: 0 <= i < k ==> th[i] <= score
    requires k < |th| ==> score < th[k]
    ensures StepDelay(score, th, ds, floor) == if k < |th| then ds[k] else floor
    decreases k
  {
    if k > 0 {
      assert th[0] <= score;
      var th', ds' := th[1..], ds[1..];
      assert forall i :: 0 <= i < k - 1 ==> th'[i] == th[i + 1];
      StepDelayInBand(score, th', ds', floor, k - 1);
    }
  }

  /** Within the band below Thresholds[k] the cascade gives Delays[k]. */
  lemma AdjustIntervalInBand(score: int, k: nat)
    requires k < |Thresholds|
    requires k > 0 ==> Thresholds[k - 1] <= score
    requires score < Thresholds[k]
    ensures AdjustInterval(score) == Delays[k]
  {
  }

  /** The cascade of comparisons is exactly the threshold table. */
  lemma AdjustIntervalIsStepDelay(score: int)
    ensures AdjustInterval(score) == StepDelay(score, Thresholds, Delays, FloorDelay)
  {
    ScheduleIsWellFormed();
    var k := 0;
    while k < |Thresholds| && Thresholds[k] <= score
      invariant 0 <= k <= |Thresholds|
      invariant forall i :: 0 <= i < k ==> Thresholds[i] <= score
    {
      k := k + 1;
    }
    StepDelayInBand(score, Thresholds, Delays, FloorDelay, k);
    if k < |Thresholds| {
      assert score < Thresholds[k];
      AdjustIntervalInBand(score, k);
    } else {
      assert Thresholds[|Thresholds| - 1] <= score;
    }
  }

  /** A higher score never gives a longer delay. */
  lemma AdjustIntervalMonotone(s1: int, s2: int)
    requires s1 <= s2
    ensures AdjustInterval(s1) >= AdjustInterval(s2)
  {
    AdjustIntervalIsStepDelay(s1);
    AdjustIntervalIsStepDelay(s2);
    ScheduleIsWellFormed();
    StepDelayMonotone(s1, s2, Thresholds, Delays, FloorDelay);
  }
}
