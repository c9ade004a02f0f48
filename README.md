# Car game: the per-tick state machine

This project models, in Dafny, the game logic of a single-file Swing arcade
game (`jogo/CarGame.java`). The player steers a red car left and right
across a 400-pixel, four-lane road. Obstacle vehicles spawn above the
screen and scroll down at the current game speed. Each obstacle that leaves
the bottom of the screen is worth 10 points. Every 500 points the speed
steps up, to at most 15. The first overlap between the car and an obstacle
ends the session with a burst of 100 explosion particles.

The model has six modules:

- `Config`: the game's constants: the 800x600 window, the road from x = 200
  to x = 600, the car's size and step of 8, and the reward, speed and
  explosion figures.
- `Filtering`: the shape shared by the game's two clean-up loops. Each loop
  walks a list from its end, updates every element and removes the updated
  elements that fail a test. `MapFilter` and `Dropped` state the result.
  `KeptIndices` proves that exactly the failing elements go and that the
  others keep their order.
- `Obstacles`: `getLaneCenter`, the obstacle record and its size by kind, and
  `java.awt.Rectangle.intersects`. It also holds the two loops of
  `updateGame` that touch obstacles: `AdvanceObstacles` (move, remove,
  reward) and `FirstCollision` (the early-return collision search).
- `Particles`: a particle's integer `life`, and the loop of `updateExplosion`
  (`AgeParticles`).
- `Rules`: the panel's fields as a `State` value, with one function per
  routine (`StartGame`, `UpdateGame`, `CreateExplosion`, `UpdateExplosion`,
  `GameOver`, `ActionPerformed`, `KeyPressed`, `KeyReleased`,
  `MouseClicked`). `Valid` is the invariant of every reachable state. `Run`
  applies a sequence of events.
- `Properties`: the lemmas about those functions.
- `CarGame`: class `Game`. It has the panel's fields, and a method for each
  routine that updates them in place. Each method is proved to leave exactly
  `Rules.X(old state)`. The public entry points (`ActionPerformed`, the key
  and mouse handlers) also keep `Valid()`. `Game.Advance` holds the first
  half of `updateGame` (steering, obstacle loop and spawn) as a method of
  its own.

Random draws are inputs. Each timer tick receives a `Draws` record holding:

- the spawn roll, in `[0, 60 - 2*gameSpeed)`;
- the lane, in `[0, 4)`;
- the kind, in `[0, 3)`;
- the colour index, in `[0, 5)`;
- the 100 particle lives, each in `[30, 70)`.

`InRange` states these bounds. `Fair` says that every tick of a run draws
in range.

The model follows the code where the code's behaviour is surprising, and
proves the consequences:

- The clamp is soft. Each bound is tested before the move of 8, so the car
  ranges over x = 194, 202, ..., 554. Its left side can stand 6 pixels
  past the road's left edge, and its right side 4 pixels past the right
  edge (`BandLimits`, `SoftClamp`).
- `getLaneCenter(lane)` is `150 + 100*lane`. Lane 0's obstacles lie
  entirely left of the road, at x = 125 to 185. No obstacle ever reaches
  past x = 485, so a car parked at x >= 490 can never be hit
  (`ObstacleSpan`, `LaneZeroHarmless`, `RightEdgeIsSafe`).
- The difficulty step fires only when the score is exactly a positive
  multiple of 500. The step at 500 is never skipped: up to then the speed
  is 5, obstacles are spawned at most one per tick and so at least 5 pixels
  apart, and at speed 5 an obstacle leaves only from y in (595, 600], so at
  most one obstacle leaves per tick (this reachability argument is not
  proved in the model). Once the speed is 6 or more, two obstacles spawned
  on consecutive ticks before the last step can leave in the same tick and
  carry the score across the next multiple of 500, e.g. from 990 to 1010,
  leaving the speed at 6 (`StepCanBeSkipped`).
- `gameOver` stops the Swing timer. The tick that crashes still runs one
  explosion tick, leaving 59 ticks to go, but no further tick ever arrives.
  The explosion therefore never ends. Both restart paths require "not
  running and not exploding", so no run of events from the constructor's
  state ever restarts the game (`FatalTickFreezes`, `FrozenForever`,
  `NeverRestartable`, `LaunchNeverRestarts`). The intended life cycle of a
  crash is running, then exploding, then game over, then restart. It is
  not what the code does, and the model follows the code.
- `updateExplosion` on its own terms (CarGame.java:443-445) does not clear
  the particles when its timer runs out: the ones still alive stay in the
  list, and only `startGame` clears them (`ExpiryKeepsParticles`). As the
  previous point shows, no run of the game reaches that tick.

## Model

| member | source | states |
|---|---|---|
| `Obstacles.LaneCenter` | jogo/CarGame.java:135-138 | a lane's centre is 150 + 100*lane; it is right of the road's left edge exactly for lanes >= 1 and on the road exactly for lanes 1..4, so lane 0's centre is off the road |
| `Obstacles.Size` | jogo/CarGame.java:80-93 | kind 0, 1 and 2 give 50x80, 60x100 and 45x70; any other kind falls through the switch with an empty 0x0 size |
| `Obstacles.NewObstacle` | jogo/CarGame.java:74-96 | a new obstacle has x = 125 + 100*lane, the given y, lane, kind and colour, and the size of its kind |
| `Obstacles.IntersectsIffSharedPixel` | jogo/CarGame.java:407-409 | the rectangle test holds exactly when the two rectangles share a pixel, so touching edges are not a collision |
| `Obstacles.ObstacleSpan` | jogo/CarGame.java:74-77 | every obstacle lies within x in [125, 485]; a lane-0 obstacle ends left of the road |
| `Obstacles.RightOfObstacles` | jogo/CarGame.java:407-414 | no well-formed obstacle collides with a car whose left edge is at x >= 485 |
| `Obstacles.LaneZeroHarmless` | jogo/CarGame.java:135-138 | a lane-0 obstacle never hits a car right of x = 185, i.e. any car the game can place |
| `Obstacles.AdvanceExactly` | jogo/CarGame.java:390-398 | advancing moves each obstacle down by exactly the speed, removes exactly those whose new y > 600, keeps the others in order, and kept + exited = all |
| `Obstacles.SurvivorsPlaced` | jogo/CarGame.java:390-398 | survivors of the advance stay well-formed and between y = -100 and y = 600 |
| `Obstacles.AdvanceObstacles` | jogo/CarGame.java:390-398 | the reverse-index loop with remove(i) leaves exactly the survivors and adds 10 to the score per obstacle removed |
| `Obstacles.FirstCollision` | jogo/CarGame.java:407-414 | the collision search returns the first obstacle that overlaps the car, or -1 exactly when none does |
| `Particles.Aged` | jogo/CarGame.java:434-441 | after a particle update, at most as many particles remain and every remaining life is positive |
| `Particles.AgedExactly` | jogo/CarGame.java:434-441 | an explosion tick lowers every life by exactly 1 and removes exactly the particles whose life drops to 0 or below, keeping the others in order |
| `Particles.AgedBounded` | jogo/CarGame.java:117 | lives drawn below a bound stay below it (minus one) after a tick, and the remaining ones are positive |
| `Particles.AgeParticles` | jogo/CarGame.java:434-441 | the reverse-index loop with remove(i) leaves exactly the aged particles |
| `Rules.SpawnBound` | jogo/CarGame.java:401 | the spawn roll's bound 60 - 2*speed is between 30 and 50 for speeds 5..15, and positive exactly below speed 30 |
| `Rules.SpeedFor` | jogo/CarGame.java:417-419 | the speed a step assigns, min(15, 5 + score/500), lies in [5, 15] for any score >= 0 |
| `Rules.SpeedForMonotone` | jogo/CarGame.java:417-419 | a higher score never gives a lower stepped speed |
| `Rules.SteerKeepsBand` | jogo/CarGame.java:382-387 | steering keeps the car strictly between 192 and 558 and on the grid of 8-pixel steps from x = 250 |
| `Rules.BandLimits` | jogo/CarGame.java:382-387 | the car ranges over 194..554; it is left of the road only at 194 and past the right bound only at 554; it overhangs the road by at most 6 pixels on the left and 4 on the right |
| `Rules.SoftClamp` | jogo/CarGame.java:382-387 | one step left from 202 reaches 194 and one step right from 546 reaches 554; from there the car moves no further |
| `Rules.GameOver` | jogo/CarGame.java:448-455 | game over stops the session and the timer; the high score becomes max(high score, score) and changes iff the score beats it |
| `Rules.Launch` | jogo/CarGame.java:47-66 | the constructor's state is valid, running, with high score 0 |
| `Properties.AdvanceKeepsBounds` | jogo/CarGame.java:381-404 | steering, advancing and spawning keep the car in its band and every obstacle placed, and do not lower the score |
| `Properties.StartGameKeepsValid` | jogo/CarGame.java:140-158 | starting a session from a valid state gives a valid state and keeps the high score |
| `Properties.KeyPressedKeepsValid` | jogo/CarGame.java:470-483 | a key press, including a space that restarts, keeps the invariant and the high score |
| `Properties.MouseClickedKeepsValid` | jogo/CarGame.java:499-504 | a click, including one on the restart button that restarts, keeps the invariant and the high score |
| `Properties.UpdateGameKeepsValid` | jogo/CarGame.java:378-420 | a tick of updateGame keeps the state invariant |
| `Properties.UpdateExplosionKeepsValid` | jogo/CarGame.java:431-446 | an explosion tick, run while the explosion shows, keeps the state invariant |
| `Properties.ActionPerformedKeepsValid` | jogo/CarGame.java:458-468 | a timer event keeps the invariant and never lowers the high score |
| `Properties.StepKeepsValid` | jogo/CarGame.java:458-503 | any timer, key or mouse event keeps the invariant and never lowers the high score |
| `Properties.RunKeepsValid` | jogo/CarGame.java:458-503 | every fair run of events keeps the invariant and never lowers the high score |
| `Properties.ScoreCountsRemovals` | jogo/CarGame.java:390-404 | in a running tick the score rises by exactly 10 times the number of obstacles removed, crash or not, and at most one obstacle is added |
| `Properties.ObstaclesAfterTick` | jogo/CarGame.java:390-404 | after a running tick the list is the moved survivors of the old list in order, followed by one new obstacle at y = -100 exactly when the roll is 0 |
| `Properties.SpeedSteps` | jogo/CarGame.java:416-419 | the speed never falls and stays at most 15; a tick without a crash that ends on a positive multiple of 500 sets it to min(15, 5 + score/500), and it changes in no other tick |
| `Properties.StepAtThousand` | jogo/CarGame.java:416-419 | example: from 990 at speed 6, one obstacle leaving gives score 1000 and speed 7 |
| `Properties.StepCanBeSkipped` | jogo/CarGame.java:390-419 | from score 990 at speed 6, two obstacles 5 pixels apart leave in one tick, giving 1010, and the speed stays 6 although the speed for 1010 is 7 |
| `Properties.CrashOutcome` | jogo/CarGame.java:406-429 | a tick ends the session iff the car overlaps an obstacle; then the explosion shows with timer 60 and 100 more particles, the speed is kept, the timer stops and the high score is promoted; otherwise explosion, explosion timer, particles, high score and timer are unchanged |
| `Properties.RightEdgeIsSafe` | jogo/CarGame.java:382-414 | a car at x >= 490 with no key held to the left survives every tick and stays at x >= 490 |
| `Properties.ExplosionTick` | jogo/CarGame.java:431-446 | an explosion tick decrements the timer, ages the particles exactly as AgedExactly says, clears the explosion iff the timer reaches 0, and leaves obstacles, score, car, key flags, speed, high score, running flag and timer unchanged |
| `Properties.ExpiryKeepsParticles` | jogo/CarGame.java:431-446 | the tick that ends the explosion ages the particles as any other tick and does not clear them: any particle with life above 1 survives it |
| `Properties.FatalTickFreezes` | jogo/CarGame.java:448-465 | the timer event that crashes leaves the timer stopped, the explosion showing with 59 ticks to go, and restart refused |
| `Properties.FrozenForever` | jogo/CarGame.java:458-503 | once the timer is stopped with the explosion showing, no sequence of events changes anything but the two key flags |
| `Properties.StepKeepsSealed` | jogo/CarGame.java:458-503 | every event keeps a valid state either running or frozen after a crash |
| `Properties.NeverRestartable` | jogo/CarGame.java:470-503 | from a running or frozen valid state, no fair run reaches a state where restart is accepted |
| `Properties.LaunchNeverRestarts` | jogo/CarGame.java:47-66 | from the constructor's state, the game is always running or showing the explosion, so restart is never accepted |
| `Properties.RestartGuard` | jogo/CarGame.java:140-158 | space restarts exactly when neither running nor exploding, and a click exactly when also on the button, both to the same state; a refused restart changes nothing; a restart gives score 0, speed 5, empty lists, the car at 250, running, and keeps the high score |
| `CarGame.Game.constructor` | jogo/CarGame.java:47-66 | the new panel is valid and in the Launch state |
| `CarGame.Game.StartGame` | jogo/CarGame.java:140-158 | the fields become Rules.StartGame of the old ones |
| `CarGame.Game.UpdateGame` | jogo/CarGame.java:378-420 | the fields become Rules.UpdateGame of the old ones and the draws |
| `CarGame.Game.Advance` | jogo/CarGame.java:381-404 | the fields become Rules.Advance of the old ones: car steered, obstacles advanced and scored, at most one spawned |
| `CarGame.Game.CreateExplosion` | jogo/CarGame.java:422-429 | the loop appends exactly the 100 drawn particles; the explosion shows with timer 60 |
| `CarGame.Game.UpdateExplosion` | jogo/CarGame.java:431-446 | the fields become Rules.UpdateExplosion of the old ones |
| `CarGame.Game.GameOver` | jogo/CarGame.java:448-455 | the fields become Rules.GameOver of the old ones |
| `CarGame.Game.ActionPerformed` | jogo/CarGame.java:457-468 | the fields become Rules.ActionPerformed of the old ones, and the invariant is kept |
| `CarGame.Game.KeyPressed` | jogo/CarGame.java:470-483 | arrow keys set their flag; space restarts only when neither running nor exploding; the invariant is kept |
| `CarGame.Game.KeyReleased` | jogo/CarGame.java:485-494 | arrow keys clear their flag; nothing else changes |
| `CarGame.Game.MouseClicked` | jogo/CarGame.java:499-504 | a click on the button restarts only when neither running nor exploding; the invariant is kept |

## Left out

- Rendering is not modelled: `paintComponent` and every `draw*` routine,
  fonts, colours, gradients, alpha, the star rating `min(5, score/1000)` and
  the speed-bar width. They compute no game state.
- The particles' `double` fields are not modelled: position, velocity,
  gravity 0.1, shrink factor 0.97 and colour. This floating-point
  kinematics never affects the game state. For the same reason the
  explosion centre passed to `createExplosion` is dropped.
- `java.util.Random` is replaced by caller-supplied draws. A `Draws` record
  always carries a lane, kind, colour and burst, even on ticks that do not
  consume them. The obstacle's colour is kept as a palette index.
- The scheduling of `javax.swing.Timer` is not modelled. Its start and stop
  calls are recorded in the `timerActive` flag, and a stopped timer
  delivers no `ActionPerformed`.
- `repaint`, `requestFocus`, listener registration, `main` and the `JFrame`
  set-up are not modelled. They are host plumbing.
- The restart button's `Rectangle.contains` is a boolean input of
  `MouseClicked`. It is a foreign AWT call on a fixed rectangle. The hover
  state (`mouseMoved`, `mouseExited`) is left out because it only affects
  drawing.
- `keyTyped`, `mousePressed`, `mouseReleased` and `mouseEntered` are empty
  in the source and are not modelled.
- Java's 32-bit `int` is not modelled. Integers here are unbounded, and so
  is the score. The overflow branch of `Rectangle.intersects` is omitted.
  Every coordinate in the game is below 1000, and an overflow of the score
  would need more than 200 million obstacles.
- Obstacle objects are values in the model. Their `y` is updated by
  rebuilding the record in the list. The list is the obstacles' only owner,
  so no aliasing is lost.
