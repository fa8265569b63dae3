/**
 The position sampler: spawn points are drawn until one lies far enough from
 every point in the recent-spawn history, which keeps the last five accepted
 spawn points. Random draws are supplied by the caller as a sequence of
 candidate points; distances are compared squared, so no square root is
 needed.
 */
module Spawning {

  /** A point of the play area, in whole pixels. */
  datatype Point = Point(x: int, y: int)

  /** The number of recent spawn points the history keeps. */
  const HistoryCapacity: nat := 5

  /** Spacing the game asks of a new spawn point, in pixels. */
  const DefaultMinDistance: int := 50

  /** Number of random draws the game makes before falling back. */
  const DefaultMaxAttempts: nat := 100

  function SquaredDistance(p: Point, q: Point): (d: nat)
  {
    var dx := p.x - q.x;
    var dy := p.y - q.y;
    dx * dx + dy * dy
  }

  /** The Euclidean distance between p and q is at least minDistance. A
      distance is never negative, so a minimum that is not positive is always
      met; otherwise both sides of the comparison may be squared. */
  predicate FarFrom(p: Point, q: Point, minDistance: int)
  {
    minDistance <= 0 || SquaredDistance(p, q) >= minDistance * minDistance
  }

  /** Whether p keeps its distance from every point of the history. */
  function IsFarFromRecent(history: seq<Point>, p: Point, minDistance: int): (far: bool)
    ensures far <==> forall i :: 0 <= i < |history| ==> FarFrom(history[i], p, minDistance)
    decreases |history|
  {
    if |history| == 0 then true
    else FarFrom(history[0], p, minDistance) && IsFarFromRecent(history[1..], p, minDistance)
  }

  /** Appends p to the history and, when that makes it longer than the
      capacity, drops the oldest entry. */
  function StorePosition(history: seq<Point>, p: Point): (h: seq<Point>)
    ensures |h| > 0 && h[|h| - 1] == p
    ensures |history| <= HistoryCapacity ==> |h| <= HistoryCapacity
    ensures |history| < HistoryCapacity ==> h[..|h| - 1] == history
    ensures |history| >= HistoryCapacity ==> |h| == |history| && h[..|h| - 1] == history[1..]
  {
    var pushed := history + [p];
    assert pushed[..|history|] == history;
    if |pushed| > HistoryCapacity then
      assert pushed[1..][..|history| - 1] == history[1..];
      pushed[1..]
    else
      pushed
  }

  /** The last n elements of s, or all of s when it is shorter. */
  function LastN<T>(s: seq<T>, n: nat): (last: seq<T>)
  {
    if |s| <= n then s else s[|s| - n..]
  }

  /** Storing the points of ps one after the other, oldest first. */
  function StoreAll(history: seq<Point>, ps: seq<Point>): (h: seq<Point>)
    decreases |ps|
  {
    if |ps| == 0 then history
    else StoreAll(StorePosition(history, ps[0]), ps[1..])
  }

  /** Dropping a prefix that leaves at least n elements keeps the last n. */
  lemma LastNDropFront<T>(s: seq<T>, d: nat, n: nat)
    requires d <= |s|
    requires d == 0 || |s| - d >= n
    ensures LastN(s[d..], n) == LastN(s, n)
  {
  }

  /** Starting from a history within capacity, any run of stores leaves
      exactly the most recent points, up to the capacity, in order. */
  lemma {:induction false} StoreAllKeepsMostRecent(history: seq<Point>, ps: seq<Point>)
    requires |history| <= HistoryCapacity
    ensures StoreAll(history, ps) == LastN(history + ps, HistoryCapacity)
    decreases |ps|
  {
    if |ps| == 0 {
    } else {
      var pushed := history + [ps[0]];
      var h := StorePosition(history, ps[0]);
      var d := |pushed| - |h|;
      assert h == pushed[d..];
      StoreAllKeepsMostRecent(h, ps[1..]);
      var all := pushed + ps[1..];
      assert all == history + ps;
      assert h + ps[1..] == all[d..];
      LastNDropFront(all, d, HistoryCapacity);
    }
  }

  /** The outcome of sampling: the spawn point, the updated history, how many
      candidates were drawn, and whether one of them was accepted (if not, the
      point is the fallback centre of the play area). */
  datatype Placement = Placement(pos: Point, history: seq<Point>, attempts: nat, accepted: bool)

  /** The centre of a play area of the given size, the spawn point used when
      no candidate is accepted. */
  function Centre(width: int, height: int): (c: Point)
  {
    Point(width / 2, height / 2)
  }

  /** Sampling, from draw number `attempt` on: the first candidate far from
      every recent point is stored and returned; after maxAttempts draws the
      centre is returned and the history is left alone. */
  function SafePositionFrom(history: seq<Point>, candidates: seq<Point>, width: int, height: int,
                            minDistance: int, maxAttempts: nat, attempt: nat): (r: Placement)
    requires attempt <= maxAttempts <= |candidates|
    ensures attempt <= r.attempts <= maxAttempts
    ensures forall j :: attempt <= j < r.attempts - (if r.accepted then 1 else 0) ==>
              !IsFarFromRecent(history, candidates[j], minDistance)
    ensures r.accepted ==>
              && r.attempts > attempt
              && r.pos == candidates[r.attempts - 1]
              && IsFarFromRecent(history, r.pos, minDistance)
              && r.history == StorePosition(history, r.pos)
    ensures !r.accepted ==>
              && r.attempts == maxAttempts
              && r.pos == Centre(width, height)
              && r.history == history
    decreases maxAttempts - attempt
  {
    if attempt == maxAttempts then
      Placement(Centre(width, height), history, attempt, false)
    else
      var candidate := candidates[attempt];
      if IsFarFromRecent(history, candidate, minDistance) then
        Placement(candidate, StorePosition(history, candidate), attempt + 1, true)
      else
        SafePositionFrom(history, candidates, width, height, minDistance, maxAttempts, attempt + 1)
  }

  /** Picks a spawn point from the candidate draws, at most maxAttempts of
      them. An accepted point keeps its distance from every point of the
      history as it was before the call and is appended to it; it is the first
      draw that does. Otherwise every draw was too close, the centre is
      returned and the history is unchanged. */
  function GetSafePosition(history: seq<Point>, candidates: seq<Point>, width: int, height: int,
                           minDistance: int, maxAttempts: nat): (r: Placement)
    requires maxAttempts <= |candidates|
    ensures r.attempts <= maxAttempts
    ensures r.accepted ==>
              && 0 < r.attempts
              && r.pos == candidates[r.attempts - 1]
              && (forall i :: 0 <= i < |history| ==> FarFrom(history[i], r.pos, minDistance))
              && (forall j :: 0 <= j < r.attempts - 1 ==>
                    !IsFarFromRecent(history, candidates[j], minDistance))
              && r.history == StorePosition(history, r.pos)
    ensures !r.accepted ==>
              && r.attempts == maxAttempts
              && r.pos == Centre(width, height)
              && r.history == history
              && (forall j :: 0 <= j < maxAttempts ==>
                    exists i :: 0 <= i < |history| && !FarFrom(history[i], candidates[j], minDistance))
  {
    SafePositionFrom(history, candidates, width, height, minDistance, maxAttempts, 0)
  }

  /** With an empty history the first draw is always accepted. */
  lemma FirstDrawAcceptedOnEmptyHistory(candidates: seq<Point>, width: int, height: int,
                                        minDistance: int, maxAttempts: nat)
    requires 0 < maxAttempts <= |candidates|
    ensures GetSafePosition([], candidates, width, height, minDistance, maxAttempts)
              == Placement(candidates[0], [candidates[0]], 1, true)
  {
  }

  /** Draws inside the play area give a spawn point inside it, the fallback
      centre included. */
  lemma SafePositionInPlayArea(history: seq<Point>, candidates: seq<Point>, width: int, height: int,
                               minDistance: int, maxAttempts: nat)
    requires maxAttempts <= |candidates|
    requires 0 <= width && 0 <= height
    requires forall j :: 0 <= j < |candidates| ==>
               0 <= candidates[j].x <= width && 0 <= candidates[j].y <= height
    ensures var r := GetSafePosition(history, candidates, width, height, minDistance, maxAttempts);
            0 <= r.pos.x <= width && 0 <= r.pos.y <= height
  {
  }
}
