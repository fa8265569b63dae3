# BubblePop session bookkeeping in Dafny

BubblePop is a browser reflex game. Circles spawn at random places in a play
area and are meant to grow and to vanish as misses when they touch the border
or another circle; the player scores by clicking a circle first. Spawns are
meant to speed up as the score rises. As the code is written neither
happens: the growth step fails before it changes anything (see `growCircles`
under "## Left out"), and the spawn delay stays at 1000 ms (see the timer
note below). What does change with the score is the spawn gate at 500
points.

This project models the game's session bookkeeping without the DOM. Each
piece is a pure function from one session state to the next. There are three
modules:

- `Difficulty` (`difficulty.dfy`): `AdjustInterval`, the spawn delay as a step
  function of the score. It is proved equal to an independent threshold
  table, and monotonicity is proved for any well-formed step table.
- `Spawning` (`spawning.dfy`): the recent-spawn history, bounded to five
  points, and the spacing filter `IsFarFromRecent`. It also has
  `GetSafePosition`, which takes the random draws as an input sequence of
  candidate points. Distances are compared squared.
- `Session` (`session.dfy`): the session record, which holds the score, the
  miss count, the live circles, the recent positions, the running flag and an
  identity counter. Its transitions are start, quit, a spawn-timer firing, a
  click and a removal. An event-trace function lets the session invariant be
  proved over every reachable state.

A circle is an identity, an integer centre, an integer diameter and a
`growing` flag. The game compares circle objects by reference. The model
compares them by the identity, and a fresh identity comes from the `nextId`
counter.

Three details of the code a reader might not expect, which the model
follows:

- The spawn gate opens at 500 points (gameplay.js:232 and :239).
- `startGame` resets the score but not the miss counter (gameplay.js:218-226).
- `adjustInterval` is evaluated twice per game, not after every spawn. It is
  computed once when the game starts, where the score is 0, so the result is
  1000 ms. It is computed again at the first firing, which arms a repeating
  timer whose delay never changes after that (gameplay.js:231-245). At that
  first firing the score is still 0: `startGame` has just cleared the score
  and removed every circle (gameplay.js:219-225), so nothing could have been
  clicked. The repeating timer is therefore always armed at 1000 ms, and
  the faster delays of `adjustInterval` are never used as the code is
  written. Timers are not modelled; this note is a reading of the code, not
  a proved property.

## Model

| member | source | states |
|---|---|---|
| Difficulty.AdjustInterval | gameplay.js:150-169 | The delay is always between 25 and 1000 ms. It is 1000 ms below 50 points and 25 ms from 1300 points on. |
| Difficulty.ScheduleIsWellFormed | gameplay.js:150-169 | The game's threshold table has strictly increasing thresholds. Its delays never increase and never drop below the 25 ms floor. |
| Difficulty.AdjustIntervalInBand | gameplay.js:150-169 | A score at or above threshold k-1 and below threshold k gets exactly the k-th delay of the table. |
| Difficulty.AdjustIntervalIsStepDelay | gameplay.js:150-169 | For every score, the cascade of comparisons equals the generic step lookup over the threshold table with a 25 ms floor. |
| Difficulty.StepDelayMonotone | gameplay.js:150-169 | Over any well-formed step table, a higher score never gives a longer delay. |
| Difficulty.AdjustIntervalMonotone | gameplay.js:150-169 | If s1 <= s2, the delay at s1 is at least the delay at s2. |
| Spawning.IsFarFromRecent | gameplay.js:20-26 | True exactly when the point is at least minDistance away from every point of the history. |
| Spawning.StorePosition | gameplay.js:29-34 | The new point comes last. A history within capacity stays within five points. A shorter history keeps every old entry. A full history drops exactly the oldest entry and keeps the others in order. |
| Spawning.StoreAllKeepsMostRecent | gameplay.js:29-34 | Storing any run of points into a history within capacity leaves exactly the last five of all points seen, in order. |
| Spawning.SafePositionFrom | gameplay.js:41-50 | From a given draw on, the first candidate that is far enough is accepted and stored, and every earlier draw was too close. If none is far enough after maxAttempts draws, the result is the centre and the history is unchanged. |
| Spawning.GetSafePosition | gameplay.js:37-51 | At most maxAttempts candidates are tried. An accepted point is the first far-enough draw and is far from every point of the history before the call. It is appended to the history. The fallback is (width/2, height/2): it leaves the history unchanged, and every draw was too close to some recent point. |
| Spawning.FirstDrawAcceptedOnEmptyHistory | gameplay.js:20-26 | With an empty history the first draw is accepted. The history then holds just that point. |
| Spawning.SafePositionInPlayArea | gameplay.js:38-50 | If every draw lies inside the play area, the spawn point does too, the centre included. |
| Session.Find | gameplay.js:123-124 | Finds the first live circle with the given identity. It returns nothing exactly when no live circle has that identity. |
| Session.Without | gameplay.js:139 | Keeps exactly the circles whose identity differs from the given one. A store holding that identity gets strictly shorter. A store without it is unchanged. |
| Session.WithoutConcat | gameplay.js:139 | Filtering a concatenation gives the concatenation of the filtered parts. |
| Session.WithoutRemovesOnlyThatCircle | gameplay.js:139 | If identities are distinct, filtering one out removes that circle alone and keeps the others in their original order. |
| Session.IncrementScore | gameplay.js:144-147 | The score grows by exactly the amount. Nothing else changes. |
| Session.IncrementMissed | gameplay.js:54-57 | The miss count grows by exactly one. Nothing else changes. |
| Session.RemoveCircle | gameplay.js:133-141 | No circle with the identity remains and the score is unchanged. The miss count grows by one exactly when the removal is not a click, even if the circle was already gone. The session invariant is preserved. |
| Session.MissRemovesOnlyThatCircle | gameplay.js:133-141 | In a valid session, a non-click removal of a live circle takes out only that circle and keeps the others in order. It adds exactly one miss and leaves the score alone. |
| Session.Click | gameplay.js:123-128 | A click on a live, growing circle adds exactly size/10 (rounded down) to the score, leaves the miss count unchanged and removes that circle. A click on a circle that is gone or no longer growing changes nothing. The session invariant is preserved. |
| Session.ClickRemovesOnlyThatCircle | gameplay.js:123-141 | In a valid session, clicking a live circle removes only that circle and keeps the others in their original order. The score grows by its size/10 and the miss count is unchanged. |
| Session.ClickIdempotent | gameplay.js:124-127 | Clicking the same circle twice has the same effect as clicking it once. |
| Session.StartGame | gameplay.js:218-226 | The score is 0, no circles are live, the history is empty and the game runs. The miss counter is carried over. |
| Session.StartGameForgetsPreviousGame | gameplay.js:218-226 | Two sessions start into the same new game exactly when their miss counters agree, and their identity counters agree too. |
| Session.QuitGame | gameplay.js:259-265 | The game stops and every live circle is cleared without counting misses. Score, miss count and history are kept. |
| Session.ClickAfterQuitChangesNothing | gameplay.js:259-265 | Once the game is stopped, no click changes the session. |
| Session.ShouldSpawn | gameplay.js:232-236 | The timer spawns exactly when the score is at least 500 or no circle is live. |
| Session.CreateCircle | gameplay.js:99-130 | Appends one growing circle of diameter 10 with a fresh identity at the safe position. The history becomes the sampler's updated history. Counters are unchanged. |
| Session.SpawnTick | gameplay.js:231-244 | If the gate is closed nothing changes. If it is open exactly one growing circle of diameter 10 is appended and the existing circles keep their order. Counters never change. |
| Session.AtMostOneCircleBelowGate | gameplay.js:232-233 | Below 500 points a firing never puts a second circle on screen. |
| Session.StartSpawnMissScenario | gameplay.js:218-245 | After a start and one timer firing, exactly one circle is live. If it is then removed unclicked, the miss count is one higher than before the start, the score is 0 and no circle is live. |
| Session.StartSpawnClickScenario | gameplay.js:218-245 | After a start and one timer firing, clicking the new circle scores its starting diameter over ten (one point), adds no miss and leaves no circle live. |
| Session.Apply | gameplay.js:172-303 | No event lowers the miss count. The count rises only on a miss of a live circle while the game runs, by exactly one, and that circle leaves the store. The score rises only on a click of a live circle. Every event preserves the session invariant. |
| Session.ApplyAllPreservesValid | gameplay.js:286-303 | Over any run of events from a valid session, the session stays valid and the miss count never goes down. The invariant covers distinct identities, a history of at most five points and live circles that all grow. |
| Session.ApplyKeepsGate | gameplay.js:231-244 | Every event keeps the rule that below 500 points at most one circle is on screen. |
| Session.ApplyAllKeepsGate | gameplay.js:231-244 | Over any run of events, the rule that below 500 points at most one circle is on screen keeps holding once it holds at the start. |
| Session.ReachableSessionsAreValid | gameplay.js:1-6 | Every session reachable from the initial state is valid. Its history never holds more than five points. Below 500 points it shows at most one circle. |

## Left out

- `growCircles`: not modelled. As written it reads an undeclared `radius` (gameplay.js:181-184, 198, 212), so it throws whenever a growing circle exists and has no well-defined behaviour. It also depends on floating-point screen bounds and square roots. Its effect on the session would be a removal that counts as a miss; the `Miss` event stands for that, through `RemoveCircle` with `clicked` false. Like the loop at gameplay.js:175-176 and the running check at gameplay.js:253, it takes effect only for a live, growing circle while the game runs.
- Timers and the animation loop: not modelled. This covers `setInterval`, `clearInterval`, `requestAnimationFrame` and `gameLoop`, which are event scheduling. Only the spawn gate is modelled, as `SpawnTick`. A timer firing outside a running game is not delivered, because `quitGame` clears the timer.
- `Math.random`: replaced by candidate points that the caller supplies. A firing must bring at least 100 of them, one per attempt.
- Spawning.Centre: the game's draws and the fallback centre are floating-point. The model uses integer pixels, so the centre of an odd-sized play area is rounded down rather than falling on a half pixel.
- Spawning.IsFarFromRecent: minDistance is an integer here; the game only ever uses 50.
- DOM work: not modelled. This covers element creation and styles, the score and miss text, `createDotEffect`, `randomColor`, and showing or hiding the start and final-score boxes.
- `window.close` and the button wiring: not modelled; they are host plumbing. The buttons appear only as `Start` and `Quit` events.
