/**
 The game session: score and miss counters, the store of live circles, the
 recent-spawn history and the running flag, with the transitions the game
 applies to them — starting and quitting a game, a tick of the spawn timer,
 a click on a circle and the removal of a circle. Each transition is a pure
 function from the session before to the session after; drawing on the
 screen is left out.
 */
module Session {
  import opened Spawning

  /** A live circle: its identity, its centre, its diameter in pixels and
      whether it is still growing. The identity stands for the object the
      game's click handler and removal compare against. */
  datatype Circle = Circle(id: nat, x: int, y: int, size: nat, growing: bool)

  datatype Option<T> = None | Some(value: T)

  /** The game's state. nextId is the identity the next spawned circle gets;
      it stands for the creation of a fresh object. */
  datatype Session = Session(
    score: nat,
    missedCount: nat,
    circles: seq<Circle>,
    recentPositions: seq<Point>,
    gameStarted: bool,
    nextId: nat)

  /** The diameter of a newly spawned circle. */
  const SpawnSize: nat := 10

  /** A click scores one point per this many pixels of diameter. */
  const PixelsPerPoint: nat := 10

  /** Below this score a circle only spawns when none is on screen. */
  const SpawnGateScore: int := 500

  /** The state before any game has been played. */
  const Initial: Session := Session(0, 0, [], [], false, 0)

  /** No two live circles share an identity. */
  ghost predicate DistinctIds(circles: seq<Circle>)
  {
    forall i, j :: 0 <= i < j < |circles| ==> circles[i].id != circles[j].id
  }

  /** What every reachable session satisfies: the history is within its
      capacity, live circles have distinct identities, all older than nextId,
      and every live circle is still growing (a circle stops growing only
      when it is clicked, and is removed at once). */
  ghost predicate Valid(s: Session)
  {
    && |s.recentPositions| <= HistoryCapacity
    && DistinctIds(s.circles)
    && (forall i :: 0 <= i < |s.circles| ==> s.circles[i].id < s.nextId)
    && (forall i :: 0 <= i < |s.circles| ==> s.circles[i].growing)
  }

  /** Position of the first live circle with the given identity, if any. */
  function Find(circles: seq<Circle>, id: nat): (r: Option<nat>)
    ensures r.None? <==> forall i :: 0 <= i < |circles| ==> circles[i].id != id
    ensures r.Some? ==>
              && r.value < |circles|
              && circles[r.value].id == id
              && forall i :: 0 <= i < r.value ==> circles[i].id != id
    decreases |circles|
  {
    if |circles| == 0 then None
    else if circles[0].id == id then Some(0)
    else match Find(circles[1..], id)
      case None => None
      case Some(k) => Some(k + 1)
  }

  /** The store with the circles of the given identity filtered out. */
  function Without(circles: seq<Circle>, id: nat): (r: seq<Circle>)
    ensures |r| <= |circles|
    ensures (exists i :: 0 <= i < |circles| && circles[i].id == id) ==> |r| < |circles|
    ensures forall c :: c in r <==> c in circles && c.id != id
    ensures (forall i :: 0 <= i < |circles| ==> circles[i].id != id) ==> r == circles
    decreases |circles|
  {
    if |circles| == 0 then []
    else if circles[0].id == id then Without(circles[1..], id)
    else [circles[0]] + Without(circles[1..], id)
  }

  /** Filtering distributes over concatenation. */
  lemma {:induction false} WithoutConcat(a: seq<Circle>, b: seq<Circle>, id: nat)
    ensures Without(a + b, id) == Without(a, id) + Without(b, id)
    decreases |a|
  {
    if |a| == 0 {
      assert a + b == b;
    } else {
      assert (a + b)[0] == a[0];
      assert (a + b)[1..] == a[1..] + b;
      WithoutConcat(a[1..], b, id);
    }
  }

  /** When identities are distinct, filtering out the circle at position k
      removes that circle alone and keeps the others in their order. */
  lemma {:induction false} WithoutRemovesOnlyThatCircle(circles: seq<Circle>, k: nat)
    requires DistinctIds(circles)
    requires k < |circles|
    ensures Without(circles, circles[k].id) == circles[..k] + circles[k + 1..]
  {
    var id := circles[k].id;
    var before, after := circles[..k], circles[k + 1..];
    assert circles == before + ([circles[k]] + after);
    WithoutConcat(before, [circles[k]] + after, id);
    WithoutConcat([circles[k]], after, id);
    assert [circles[k]][1..] == [];
    assert forall i :: 0 <= i < |before| ==> before[i].id != id by {
      forall i | 0 <= i < |before| ensures before[i].id != id {
        assert before[i] == circles[i];
      }
    }
    assert forall i :: 0 <= i < |after| ==> after[i].id != id by {
      forall i | 0 <= i < |after| ensures after[i].id != id {
        assert after[i] == circles[k + 1 + i];
      }
    }
  }

  /** Filtering out an identity keeps the remaining identities distinct. */
  lemma {:induction false} WithoutKeepsDistinct(circles: seq<Circle>, id: nat)
    requires DistinctIds(circles)
    ensures DistinctIds(Without(circles, id))
    decreases |circles|
  {
    if |circles| > 0 {
      WithoutKeepsDistinct(circles[1..], id);
      var rest := Without(circles[1..], id);
      if circles[0].id != id {
        forall i | 0 <= i < |rest|
          ensures rest[i].id != circles[0].id
        {
          assert rest[i] in circles[1..];
        }
      }
    }
  }

  /** Adds to the score; nothing else changes. */
  function IncrementScore(s: Session, amount: nat): (t: Session)
    ensures t.score == s.score + amount
    ensures t.(score := s.score) == s
  {
    s.(score := s.score + amount)
  }

  /** Counts one more missed circle; nothing else changes. */
  function IncrementMissed(s: Session): (t: Session)
    ensures t.missedCount == s.missedCount + 1
    ensures t.(missedCount := s.missedCount) == s
  {
    s.(missedCount := s.missedCount + 1)
  }

  /** Removes the circle with the given identity from the store; a removal
      that is not a click counts as a miss, whether or not the circle was
      still in the store. The score never changes. */
  function RemoveCircle(s: Session, id: nat, clicked: bool): (t: Session)
    ensures t.circles == Without(s.circles, id)
    ensures forall i :: 0 <= i < |t.circles| ==> t.circles[i].id != id
    ensures t.score == s.score
    ensures t.missedCount == s.missedCount + (if clicked then 0 else 1)
    ensures t.recentPositions == s.recentPositions
    ensures t.gameStarted == s.gameStarted && t.nextId == s.nextId
    ensures Valid(s) ==> Valid(t)
  {
    var removed := s.(circles := Without(s.circles, id));
    assert Valid(s) ==> Valid(removed) by {
      if Valid(s) {
        WithoutKeepsDistinct(s.circles, id);
      }
    }
    assert forall i :: 0 <= i < |removed.circles| ==> removed.circles[i] in s.circles;
    if clicked then removed else IncrementMissed(removed)
  }

  /** A removal that is not a click, of a circle in a valid store, takes out
      exactly that circle, keeps the others in order, counts exactly one miss
      and leaves the score alone. */
  lemma MissRemovesOnlyThatCircle(s: Session, k: nat)
    requires Valid(s)
    requires k < |s.circles|
    ensures var t := RemoveCircle(s, s.circles[k].id, false);
            && t.circles == s.circles[..k] + s.circles[k + 1..]
            && t.missedCount == s.missedCount + 1
            && t.score == s.score
  {
    WithoutRemovesOnlyThatCircle(s.circles, k);
  }

  /** A click on the circle with the given identity: if it is live and still
      growing it stops growing, the score grows by its diameter divided by
      ten, rounded down, and it is removed without counting a miss. A click
      on a circle that is gone or no longer growing changes nothing. */
  function Click(s: Session, id: nat): (t: Session)
    ensures match Find(s.circles, id)
              case None => t == s
              case Some(k) =>
                if !s.circles[k].growing then t == s
                else
                  && t.score == s.score + s.circles[k].size / PixelsPerPoint
                  && t.missedCount == s.missedCount
                  && t.circles == Without(s.circles, id)
                  && t.recentPositions == s.recentPositions
                  && t.gameStarted == s.gameStarted
                  && t.nextId == s.nextId
    ensures Valid(s) ==> Valid(t)
  {
    match Find(s.circles, id)
    case None => s
    case Some(k) =>
      var c := s.circles[k];
      if !c.growing then s
      else RemoveCircle(IncrementScore(s, c.size / PixelsPerPoint), id, true)
  }

  /** Clicking a live circle of a valid session removes that circle alone,
      keeps the others in their order, adds exactly its diameter over ten to
      the score and no miss. */
  lemma ClickRemovesOnlyThatCircle(s: Session, k: nat)
    requires Valid(s)
    requires k < |s.circles|
    ensures var t := Click(s, s.circles[k].id);
            && t.circles == s.circles[..k] + s.circles[k + 1..]
            && t.score == s.score + s.circles[k].size / PixelsPerPoint
            && t.missedCount == s.missedCount
  {
    var id := s.circles[k].id;
    assert Find(s.circles, id) == Some(k);
    WithoutRemovesOnlyThatCircle(s.circles, k);
  }

  /** A second click on the same circle has no effect. */
  lemma ClickIdempotent(s: Session, id: nat)
    ensures Click(Click(s, id), id) == Click(s, id)
  {
  }

  /** Starts a game: score, live circles and the recent-spawn history are
      cleared and the game runs. The miss counter is carried over from the
      previous game. */
  function StartGame(s: Session): (t: Session)
    ensures t.score == 0 && t.circles == [] && t.recentPositions == []
    ensures t.gameStarted
    ensures t.missedCount == s.missedCount
    ensures t.nextId == s.nextId
    ensures Valid(t)
  {
    s.(score := 0, recentPositions := [], circles := [], gameStarted := true)
  }

  /** A new game depends on the old session only through its miss counter
      (and the identity counter, which stands for object creation). */
  lemma StartGameForgetsPreviousGame(s1: Session, s2: Session)
    ensures StartGame(s1) == StartGame(s2) <==>
              s1.missedCount == s2.missedCount && s1.nextId == s2.nextId
  {
  }

  /** Stops the game: it no longer runs and every live circle is cleared
      without counting misses. Score, miss counter and history are kept, so
      the score shown at the end is the one reached. */
  function QuitGame(s: Session): (t: Session)
    ensures !t.gameStarted && t.circles == []
    ensures t.score == s.score && t.missedCount == s.missedCount
    ensures t.recentPositions == s.recentPositions && t.nextId == s.nextId
    ensures Valid(s) ==> Valid(t)
  {
    s.(gameStarted := false, circles := [])
  }

  /** After a game is stopped, no click can change the session any more. */
  lemma ClickAfterQuitChangesNothing(s: Session, id: nat)
    ensures Click(QuitGame(s), id) == QuitGame(s)
  {
  }

  /** The spawn gate of the timer callback: below 500 points a circle spawns
      only when none is live; from 500 points on one always spawns. */
  function ShouldSpawn(s: Session): (spawn: bool)
    ensures spawn <==> s.score >= SpawnGateScore || |s.circles| == 0
  {
    if s.score < SpawnGateScore then |s.circles| == 0 else true
  }

  /** Spawns a growing circle of the starting size at a safe position chosen
      from the candidate draws with the game's spacing and attempt limit. */
  function CreateCircle(s: Session, candidates: seq<Point>, width: int, height: int): (t: Session)
    requires DefaultMaxAttempts <= |candidates|
    ensures var p := GetSafePosition(s.recentPositions, candidates, width, height,
                                     DefaultMinDistance, DefaultMaxAttempts);
            && t.circles == s.circles + [Circle(s.nextId, p.pos.x, p.pos.y, SpawnSize, true)]
            && t.recentPositions == p.history
    ensures t.score == s.score && t.missedCount == s.missedCount
    ensures t.gameStarted == s.gameStarted && t.nextId == s.nextId + 1
    ensures Valid(s) ==> Valid(t)
  {
    var p := GetSafePosition(s.recentPositions, candidates, width, height,
                             DefaultMinDistance, DefaultMaxAttempts);
    var c := Circle(s.nextId, p.pos.x, p.pos.y, SpawnSize, true);
    s.(circles := s.circles + [c], recentPositions := p.history, nextId := s.nextId + 1)
  }

  /** One firing of the spawn timer, which is armed only while a game runs. */
  function SpawnTick(s: Session, candidates: seq<Point>, width: int, height: int): (t: Session)
    requires s.gameStarted
    requires DefaultMaxAttempts <= |candidates|
    ensures !ShouldSpawn(s) ==> t == s
    ensures ShouldSpawn(s) ==>
              && |t.circles| == |s.circles| + 1
              && t.circles[..|s.circles|] == s.circles
              && t.circles[|s.circles|].growing
              && t.circles[|s.circles|].size == SpawnSize
    ensures t.score == s.score && t.missedCount == s.missedCount && t.gameStarted
    ensures Valid(s) ==> Valid(t)
  {
    if ShouldSpawn(s) then CreateCircle(s, candidates, width, height) else s
  }

  /** Below the gate score, the timer never puts a second circle on screen. */
  lemma AtMostOneCircleBelowGate(s: Session, candidates: seq<Point>, width: int, height: int)
    requires s.gameStarted
    requires DefaultMaxAttempts <= |candidates|
    requires s.score < SpawnGateScore && |s.circles| <= 1
    ensures |SpawnTick(s, candidates, width, height).circles| <= 1
  {
  }

  /** A fresh game whose first circle expires unclicked: exactly one miss
      is added, the score stays 0 and the store is empty again. */
  lemma StartSpawnMissScenario(s: Session, candidates: seq<Point>, width: int, height: int)
    requires DefaultMaxAttempts <= |candidates|
    ensures var t := SpawnTick(StartGame(s), candidates, width, height);
            && |t.circles| == 1
            && var u := RemoveCircle(t, t.circles[0].id, false);
               u.missedCount == s.missedCount + 1 && u.score == 0 && u.circles == []
  {
  }

  /** A fresh game whose first circle is clicked: the score is that circle's
      diameter over ten, no miss is added and the store is empty again. */
  lemma StartSpawnClickScenario(s: Session, candidates: seq<Point>, width: int, height: int)
    requires DefaultMaxAttempts <= |candidates|
    ensures var t := SpawnTick(StartGame(s), candidates, width, height);
            && |t.circles| == 1
            && var u := Click(t, t.circles[0].id);
               u.score == SpawnSize / PixelsPerPoint && u.missedCount == s.missedCount && u.circles == []
  {
  }

  /** The events the session reacts to: the start and stop buttons, a firing
      of the spawn timer with the random draws it makes, a click on a circle,
      and the removal of a circle as a miss by the growth engine. */
  datatype Event =
    | Start
    | Quit
    | Tick(candidates: seq<Point>, width: int, height: int)
    | ClickOn(id: nat)
    | Miss(id: nat)

  /** A timer firing brings enough draws for every attempt. */
  predicate WellFormedEvent(e: Event)
  {
    e.Tick? ==> DefaultMaxAttempts <= |e.candidates|
  }

  /** The session after one event. The timer is cleared when the game stops,
      so a firing outside a running game is not delivered. The growth engine
      runs only while the game does, and only ever removes a live circle
      that is still growing, so a miss for anything else is not delivered
      either. */
  function Apply(s: Session, e: Event): (t: Session)
    requires WellFormedEvent(e)
    ensures t.missedCount >= s.missedCount
    ensures t.missedCount > s.missedCount ==>
              && e.Miss?
              && s.gameStarted
              && Find(s.circles, e.id).Some?
              && t.missedCount == s.missedCount + 1
              && |t.circles| < |s.circles|
              && Find(t.circles, e.id).None?
    ensures t.score > s.score ==> e.ClickOn? && Find(s.circles, e.id).Some?
    ensures Valid(s) ==> Valid(t)
  {
    match e
    case Start => StartGame(s)
    case Quit => QuitGame(s)
    case Tick(candidates, width, height) =>
      if s.gameStarted then SpawnTick(s, candidates, width, height) else s
    case ClickOn(id) => Click(s, id)
    case Miss(id) =>
      match Find(s.circles, id)
      case Some(k) =>
        if s.gameStarted && s.circles[k].growing then RemoveCircle(s, id, false) else s
      case None => s
  }

  /** The session after a run of events, oldest first. */
  function ApplyAll(s: Session, events: seq<Event>): (t: Session)
    requires forall i :: 0 <= i < |events| ==> WellFormedEvent(events[i])
    decreases |events|
  {
    if |events| == 0 then s
    else ApplyAll(Apply(s, events[0]), events[1..])
  }

  /** Over any run of events from a valid session, the session stays valid
      (in particular the history never holds more than five points) and the
      miss counter never goes down. */
  lemma {:induction false} ApplyAllPreservesValid(s: Session, events: seq<Event>)
    requires Valid(s)
    requires forall i :: 0 <= i < |events| ==> WellFormedEvent(events[i])
    ensures Valid(ApplyAll(s, events))
    ensures ApplyAll(s, events).missedCount >= s.missedCount
    decreases |events|
  {
    if |events| > 0 {
      ApplyAllPreservesValid(Apply(s, events[0]), events[1..]);
    }
  }

  /** Below the gate score, at most one circle is on screen. */
  ghost predicate GateHolds(s: Session)
  {
    s.score < SpawnGateScore ==> |s.circles| <= 1
  }

  /** Every event keeps the single-circle rule below the gate: start and
      quit empty the store, a firing below the gate fills only an empty
      store, and clicks and misses only shrink it. */
  lemma ApplyKeepsGate(s: Session, e: Event)
    requires WellFormedEvent(e)
    requires GateHolds(s)
    ensures GateHolds(Apply(s, e))
  {
    match e
    case ClickOn(id) =>
    case Miss(id) =>
    case _ =>
  }

  /** Over any run of events, the single-circle rule below the gate holds
      throughout once it holds at the start. */
  lemma {:induction false} ApplyAllKeepsGate(s: Session, events: seq<Event>)
    requires GateHolds(s)
    requires forall i :: 0 <= i < |events| ==> WellFormedEvent(events[i])
    ensures GateHolds(ApplyAll(s, events))
    decreases |events|
  {
    if |events| > 0 {
      ApplyKeepsGate(s, events[0]);
      ApplyAllKeepsGate(Apply(s, events[0]), events[1..]);
    }
  }

  /** Every session the game can reach from its initial state is valid, and
      below the gate score it shows at most one circle. */
  lemma ReachableSessionsAreValid(events: seq<Event>)
    requires forall i :: 0 <= i < |events| ==> WellFormedEvent(events[i])
    ensures Valid(ApplyAll(Initial, events))
    ensures |ApplyAll(Initial, events).recentPositions| <= HistoryCapacity
    ensures var t := ApplyAll(Initial, events);
            t.score < SpawnGateScore ==> |t.circles| <= 1
  {
    ApplyAllPreservesValid(Initial, events);
    ApplyAllKeepsGate(Initial, events);
  }
}
