# Asteroids game rules in Dafny

This project models the rule logic of a small pygame Asteroids clone as pure
functions over immutable records. It also proves properties of that logic.
The game has a player ship that turns, thrusts and fires shots on a cooldown.
It has a field that spawns an asteroid just outside a screen edge whenever its
timer passes 0.8 seconds. Asteroids split into two smaller, mirrored children
when a shot hits them. Each frame runs a collision pass in the main loop that
ends the game, removes shots and splits asteroids.

Modules follow the source files:

- `Vectors`: the `pygame.Vector2` operations the rules use.
- `Constants`: constants.py.
- `Shapes`: circleshape.py.
- `Asteroids`: asteroid.py.
- `Shots`: shot.py.
- `Players`: player.py.
- `Field`: asteroidfield.py.
- `Collisions`: the collision pass of main.py.
- `Game`: the rest of main.py.

Positions, velocities and timers are exact `real`s. Radii are `int`s, as in the
source.

Everything the program reads from outside becomes a parameter:

- The keys held and the quit event become an `Input` record per frame.
- The random draws of a spawn (edge, speed, deviation, offset, kind) become a
  `SpawnRoll`. Its ranges are stated by `Field.ValidRoll`.
- The split angles become a function from the number of splits so far in the
  frame to an angle.
- The clock's tick becomes a number of milliseconds.
- `Vector2.rotate` becomes a trigonometry oracle `trig` mapping degrees to a
  (cos, sin) pair. `Vectors.ValidTrig` states what the proofs need of it:
  angle 0 gives (1, 0), every angle gives a unit vector, and sine is odd.

The collision pass iterates over snapshots of the asteroid and shot groups,
which is pygame `Group` semantics. So children created during a pass are not
examined in that frame. A shot killed by one asteroid is not offered to later
asteroids. Asteroids and shots created during the update phase are appended
after the existing ones and are not moved until the next frame.

The code and its documentation disagree on the split boundary. `Asteroid.split`
tests `radius < ASTEROID_MIN_RADIUS` (asteroid.py:66). The docstring says an
asteroid whose radius is less than or equal to the minimum is destroyed
(asteroid.py:62). The model follows the code, so a radius-20 asteroid splits
into two radius-0 asteroids, and these still collide with anything they touch.
`Asteroids.SplitAsDocumented` is the documented rule. `Asteroids.SplitDiffersFromDocumentation`
proves that the two rules differ exactly at radius 20.

## Model

| member | source | states |
|---|---|---|
| Shapes.NewCircle | circleshape.py:44-46 | a new shape sits at (x, y) with zero velocity and exactly the given radius |
| Shapes.Drift | asteroid.py:56 | drifting keeps velocity and radius, and drifting back by velocity·dt returns the shape to where it started |
| Shapes.BaseUpdate | circleshape.py:61-72 | the base class update leaves position, velocity and radius unchanged |
| Shapes.DriftComposes | asteroid.py:56 | moving by velocity for dt1 and then dt2 equals moving once for dt1 + dt2 |
| Shapes.DriftStaysPutIff | asteroid.py:56 | drifting keeps velocity and radius, and leaves the shape where it was exactly when dt is 0 or the shape is at rest |
| Shapes.NewCircleAtRest | circleshape.py:44-46 | a freshly created shape does not move on its first update, whatever dt is |
| Shapes.CollidesIffCloser | circleshape.py:85-87 | for the true centre distance d, two shapes collide iff d is strictly less than the sum of radii |
| Shapes.Collides | circleshape.py:85-87 | the collision test; its meaning, true centre distance strictly below the sum of radii, is the contract of `Shapes.CollidesIffCloser` |
| Shapes.TouchingDoNotCollide | circleshape.py:87 | shapes whose centre distance equals the sum of radii exactly do not collide |
| Shapes.CollidesSymmetric | circleshape.py:85-87 | a collides with b iff b collides with a |
| Shapes.ConcentricCollide | circleshape.py:85-87 | two shapes at the same centre collide iff their radii sum to a positive number, so a radius-0 asteroid still collides |
| Shapes.CollidesMonotone | circleshape.py:85-87 | growing one shape's radius about the same centre never undoes a collision |
| Vectors.Rotate | asteroid.py:75-76 | rotation through a (cos, sin) pair of unit length keeps the vector's length, and rotation through (1, 0) is the identity |
| Vectors.UnitRotation | asteroid.py:75-76 | multiplying by a unit (cos, sin) pair keeps the squared length, for all reals |
| Vectors.RotateByZero | asteroid.py:75-76 | rotating a vector by 0 degrees returns it unchanged |
| Vectors.RotateKeepsLength | asteroid.py:75-76 | rotation keeps a vector's length |
| Vectors.RotateMirror | asteroid.py:75-76 | rotations by +θ and −θ sum to the vector scaled by 2·cos θ |
| Asteroids.Update | asteroid.py:56 | an asteroid moves by velocity·dt and keeps its velocity and radius |
| Asteroids.Split | asteroid.py:66-84 | there are no children exactly when the radius is below 20, and otherwise exactly two |
| Asteroids.SplitChildren | asteroid.py:70-84 | every child sits at the parent's position with radius r − 20, and the two velocities are the parent's rotated by +θ and by −θ |
| Asteroids.SplitAtMinimumRadius | asteroid.py:62-66 | a radius-20 asteroid splits into two radius-0 asteroids |
| Asteroids.SplitAsDocumented | asteroid.py:60-62 | the rule the docstring states: an asteroid of radius at most 20 leaves no children, and only such an asteroid |
| Asteroids.SplitChildrenMirrored | asteroid.py:73-84 | the two children's velocities are mirrored about the parent's: they sum to the parent's velocity scaled by 2·cos θ |
| Asteroids.SplitChildrenKeepSpeed | asteroid.py:73-84 | every child moves at exactly the parent's speed |
| Asteroids.SplitKeepsRadiusOk | asteroid.py:78 | splitting keeps every radius a non-negative multiple of 20 that is at most 60 |
| Asteroids.SplitDiffersFromDocumentation | asteroid.py:60-66 | the coded rule and the documented rule give different results iff the radius is exactly 20 |
| Asteroids.HitsToClearSplit | asteroid.py:66-84 | the hits needed to clear an asteroid are one plus those needed to clear its children |
| Asteroids.HitsToClear | asteroid.py:66-84 | clearing an asteroid and all its fragments takes at least one hit |
| Asteroids.HitsToClearClosedForm | asteroid.py:66-84 | an asteroid of radius 20k is cleared after exactly 2^(k+1) − 1 hits |
| Asteroids.TotalHitsAppend | asteroid.py:66-84 | the hits needed to clear two groups of asteroids add up |
| Asteroids.TotalHits | asteroid.py:66-84 | a worklist of asteroids needs at least one hit per asteroid to clear |
| Asteroids.ClearByShooting | asteroid.py:66-84 | shooting down a worklist of asteroids takes the number of hits given by the recursive count, which is 2^(k+1) − 1 for radius 20k |
| Shots.NewShot | shot.py:39-50 | a new shot sits at (x, y) at rest with the given radius |
| Shots.DefaultShotRadius | shot.py:39 | a shot created without a radius has radius SHOT_RADIUS = 5 |
| Shots.Update | shot.py:80 | a shot moves by velocity·dt and keeps its velocity and radius |
| Shots.UpdateComposes | shot.py:80 | two updates with dt1 and dt2 equal one update with dt1 + dt2 |
| Players.NewPlayer | player.py:51-59 | a new player is a radius-20 shape at rest at (x, y), with rotation 0 and shot timer 0 |
| Players.Forward | player.py:140 | the heading is (0, 1) rotated by the player's rotation: a unit vector whenever the oracle gives a unit pair, and (0, 1) itself at rotation 0 |
| Players.Rotate | player.py:127 | rotate adds exactly 300·dt degrees, with no wrap or clamp, and changes nothing else |
| Players.Move | player.py:140-147 | move adds forward·200·dt to the position, with no screen clamping, and changes nothing else |
| Players.MoveThereAndBack | player.py:140-147 | moving by dt and then by −dt returns the player to where it was |
| Players.Shoot | player.py:194-211 | while the timer is positive, shoot lowers it by dt and fires nothing; otherwise it fires one radius-5 shot from the player's position with velocity forward·500 and sets the timer to 0.3 |
| Players.NoTwoShotsInARow | player.py:194-211 | two consecutive shoot calls never both fire |
| Players.NewPlayerFiresAtOnce | player.py:51-59 | a new player's first fire attempt produces a shot straight along (0, 500) |
| Players.Steer | player.py:165-169 | the left and right keys turn by −300·dt and +300·dt, so holding both leaves the rotation unchanged |
| Players.Thrust | player.py:173-177 | the up and down keys move by dt and −dt, so holding both or neither leaves the player unchanged; up alone moves it forward·200·dt and down alone forward·200·(−dt); the rotation, timer, velocity and radius are kept |
| Players.Update | player.py:161-182 | the frame's rotation follows the held turn keys; the position stays put when up and down agree; velocity and radius are kept; without fire the timer is unchanged and no shot appears; with fire and a run-down timer a shot does appear |
| Players.UpdateMovesAndReloads | player.py:161-211 | with up alone the ship moves 200·dt along the heading it turned to this frame, with down alone 200·dt against it; fire held while the timer is positive fires nothing and lowers the timer by dt; any shot fired leaves the timer at exactly 0.3 |
| Players.UpdateAtZeroTime | player.py:161-177 | with dt = 0 the player neither turns nor moves, whatever keys are held |
| Players.UpdateKeepsCooldownBounded | player.py:194-211 | with non-negative dt the shot timer never exceeds the 0.3 s cooldown |
| Field.NewField | asteroidfield.py:57 | a new field starts with spawn timer 0 |
| Field.Spawn | asteroidfield.py:59-69 | a spawned asteroid has exactly the given radius, position and velocity |
| Field.Update | asteroidfield.py:71-89 | the timer gains dt; a spawn happens iff the sum strictly exceeds 0.8; at most one asteroid spawns, with radius 20·kind, placed by the chosen edge and moving at the drawn speed turned by the deviation; after a spawn the timer is exactly 0 |
| Field.UpdateKeepsTimerBounded | asteroidfield.py:78-80 | with non-negative dt the spawn timer stays within [0, 0.8] |
| Field.EdgesStartOffScreen | asteroidfield.py:29-50 | every edge places the asteroid 60 px outside the screen on one axis and within the screen's span on the other, and its direction leads back onto the screen |
| Field.SpawnedAsteroidShape | asteroidfield.py:83-89 | a spawned asteroid has radius 20, 40 or 60 (at most ASTEROID_MAX_RADIUS), a speed between 40 and 100, and an off-screen start |
| Field.Accrue | asteroidfield.py:71-89 | running the field over n frames, each with its own spawn draws, spawns at most n asteroids |
| Field.SpawnRateBounded | asteroidfield.py:78-80 | over any run of frames with any draws, n spawns use up more than 0.8·n seconds, because the overshoot is discarded |
| Collisions.ShotsAgainst | main.py:97-100 | every shot offered to an asteroid is either removed as a hit or kept |
| Collisions.ShotsAgainstRemovesOverlapping | main.py:97-100 | the shots kept are exactly those that do not overlap the asteroid, and the asteroid is hit at least once iff some shot overlaps it |
| Collisions.ShotsAgainstMultiset | main.py:97-100 | counted with multiplicity, the shots kept are the offered shots minus every copy of each one that overlaps the asteroid |
| Collisions.Pass | main.py:93-100 | a pass that does not end the game records a hit count for every asteroid and never adds shots |
| Collisions.PassEndsGameIff | main.py:93-96 | the pass ends the game iff some asteroid overlaps the player, however many shots would have hit first |
| Collisions.PassShotsSurviveIff | main.py:97-100 | the shots left after the pass are exactly those that overlap no asteroid |
| Collisions.HitIffFirstHit | main.py:93-100 | an asteroid is hit iff some shot overlaps it and overlaps no earlier asteroid in iteration order |
| Collisions.CountFirstHits | main.py:93-100 | the number of shots, with multiplicity, whose first overlapping asteroid in iteration order is a given one, at most the number of shots |
| Collisions.PassHitCount | main.py:93-100 | every asteroid's hit count in the pass is exactly the number of shots, with multiplicity, whose first overlapping asteroid it is |
| Collisions.SharedShotSplitsOnlyFirst | main.py:97-100 | one shot overlapping two asteroids splits only the first, because it is killed before the second is checked |
| Collisions.TwoShotsSplitTwice | main.py:97-100 | with no break, two shots overlapping one asteroid both count as hits and are both removed |
| Collisions.HitCount | main.py:97-99 | the number of asteroids hit at least once, at most the number of asteroids |
| Collisions.Survivors | main.py:97-99 | the asteroids not hit, one fewer than the snapshot for every asteroid hit |
| Collisions.SurvivorsMembers | main.py:97-99 | an asteroid survives the pass iff it was in the snapshot and no shot hit it |
| Collisions.SurvivorsSubMultiset | main.py:97-99 | counted with multiplicity, the survivors are among the snapshot asteroids |
| Collisions.SurvivorsDropHit | main.py:97-99 | every asteroid that was hit has fewer copies among the survivors than in the snapshot; `Collisions.SurvivorsCount` gives the exact count |
| Collisions.HitCopies | main.py:97-99 | the number of snapshot entries equal to a given asteroid that some shot hit, at most the size of the snapshot |
| Collisions.SurvivorsCount | main.py:97-99 | for every asteroid, its copies among the survivors plus its hit copies are exactly its copies in the snapshot: each hit entry is removed once, however many shots hit it |
| Collisions.Splits | asteroid.py:66-84 | an asteroid hit n times yields 2n children when its radius is at least 20, and none otherwise |
| Collisions.SplitsChildren | asteroid.py:78-84 | every asteroid produced by repeated splits is a child of the asteroid that was hit |
| Collisions.ChildrenDescend | main.py:97-99 | every asteroid created by the pass descends from an asteroid of the snapshot |
| Collisions.Children | main.py:97-100 | the pass creates exactly two children per hit on an asteroid of radius at least 20 |
| Collisions.ChildrenOfHit | main.py:97-100 | every snapshot asteroid's splits, one per hit, made with consecutive split angles of the frame from some index j at or after the first index k, are all among the children created, counted with multiplicity; j is given only as existing, not as k plus the earlier hits |
| Collisions.SurvivorsThenChildren | main.py:97-100 | the asteroid group after the pass is the survivors followed by the children: as many as the snapshot minus the hit asteroids plus two per splittable hit, the first part holding, of every asteroid, exactly its snapshot copies less its hit copies (`Collisions.HitCopies`), the rest descended from snapshot asteroids |
| Collisions.SharedShotChildren | main.py:97-100 | when one shot overlaps two asteroids, only the first one's children appear |
| Game.Start | main.py:36-62 | the game starts with the player at rest at (640, 360), radius 20, rotation 0, timer 0, a field with timer 0, and no asteroids or shots |
| Game.UpdatePhase | main.py:89-90 | the update phase updates the player and field, moves every existing asteroid and shot by dt, and appends any newly spawned asteroid or fired shot unmoved |
| Game.Step | main.py:78-100 | a quit event ends the frame before anything updates, and only a quit event does |
| Game.StepEndsGameIff | main.py:89-96 | the frame ends the game iff, after all updates, some asteroid overlaps the player |
| Game.StepShotsSurviveIff | main.py:89-100 | the shots of the next frame are exactly the updated shots that overlap no updated asteroid |
| Game.StepAsteroidsFromBefore | main.py:89-100 | every asteroid of the next frame is an updated asteroid or a child of one, and an updated asteroid no shot overlaps survives |
| Game.StepNextWorld | main.py:89-100 | after a frame that goes on, the player and field are those of the update phase; the asteroids number the updated ones minus those hit plus two per hit on a splittable one; the survivors, which come first, hold of every asteroid exactly its copies among the updated asteroids less the copies some shot hit first (`Collisions.HitCopies`); the rest descend from updated asteroids |
| Game.StepSplitsHitAsteroids | main.py:89-100 | after a frame that goes on, every updated asteroid's splits, one per shot that overlapped it first, made with consecutive split angles from some existing index, are among the asteroids; an asteroid a shot hit first has both children of one split among them |
| Game.StartInv | main.py:36-62 | the starting world satisfies the radius, cooldown and timer bounds of the game |
| Game.UpdatePhaseKeepsInv | main.py:89-90 | the update phase keeps those bounds |
| Game.StepKeepsInv | main.py:78-100 | a whole frame keeps those bounds: player radius 20, timer at most 0.3, spawn timer in [0, 0.8], every asteroid radius a multiple of 20 in [0, 60], every shot radius 5 |
| Game.FreshShotSurvivesItsFrame | main.py:89-100 | a shot fired this frame is never removed in the same frame's pass, because it would have to overlap an asteroid that overlaps the player |
| Game.FirstShot | player.py:194-211 | with frame time 0, the first frame's time (main.py:75), fire held at start-up fires a radius-5 shot from (640, 360) with velocity (0, 500) |
| Game.FirstUpdate | main.py:75-90 | the update phase from start-up with frame time 0, the first frame's time, moves nothing, spawns no asteroid, fires a shot iff fire is held, and starts the cooldown exactly when it fires |
| Game.FirstFrame | main.py:36-90 | a game of one frame, played as main plays it: that frame has dt = 0, so nothing moves or accrues time: the player stays at (640, 360) with rotation 0, no asteroid spawns, a shot exists iff fire is held, and the cooldown has started exactly when it does |
| Game.Seconds | main.py:110 | dt is the tick in milliseconds divided by 1000, so it is non-negative and zero only for a zero tick |
| Game.Run | main.py:78-110 | a run ends with Quit only if some frame queued a QUIT event, with GameOver only if some frame did not, and with Quit when the first frame queues one; a run of one frame is that frame's step with the given frame time |
| Game.Play | main.py:36-110 | with no frames the game is the starting world, a quit frame is the only way to a Quit, a QUIT queued in the first frame ends the game before anything moves, and a game of one frame is that frame's step from start-up with frame time 0 |
| Game.RunUnfold | main.py:78-110 | one turn of the loop: a run is its first frame's step and, unless that stops the game, the run of the remaining frames with frame time the first frame's tick in seconds |
| Game.RunPrepend | main.py:78-110 | one frame followed by more frames: that frame, then the rest from its world with its tick in seconds as frame time |
| Game.RunAppend | main.py:78-110 | playing xs then ys is playing xs and, unless that stops the game, playing ys from the world reached with frame time the last tick of xs in seconds |
| Game.PlayFirstFrameThenRun | main.py:75-110 | a game is its first frame's step from start-up with frame time 0 and, unless that stops it, the run of the remaining frames from the first tick in seconds |
| Game.RunKeepsInv | main.py:75-110 | every frame of a run keeps the game's bounds |
| Game.RunQuitStops | main.py:80-83 | a quit event in any frame stops the run there or earlier |
| Game.PlayKeepsInv | main.py:36-110 | a game started as main() starts it keeps the bounds for as long as it runs |

## Left out

- Drawing is not modelled, because it has no effect on game state: every `draw` method, `Player.triangle`, `screen.fill` and `display.flip`. The base `CircleShape.draw` (circleshape.py:59) does nothing.
- Event and key polling are not modelled: `pygame.event.get` and `key.get_pressed` become the `Input` record of a frame.
- `clock.tick` frame pacing is not modelled: the tick in milliseconds is an input, turned into dt by `Game.Seconds`.
- `exit()` and `print` are not modelled: a game over is the terminal `GameOver` frame, and quitting is the `Quit` frame.
- The `random` module is not modelled: its draws are parameters. `Field.ValidRoll` gives the spawn draws' ranges. The split angle's range [20, 50] is not stated, because no property depends on it.
- Split angles are indexed by the number of splits in the frame, including hits on asteroids below radius 20. The source draws no angle for those hits. Since the angles are arbitrary, this changes no outcome.
- `Vector2.rotate` and its trigonometry are not modelled: rotation goes through the `trig` oracle.
- Floating-point rounding is not modelled: all arithmetic is exact. `distance_to` and its square root are replaced by squared distances, and `Shapes.CollidesIffCloser` states the equivalence for the true distance.
- Sprite-group registration is not modelled (circleshape.py:37-40, main.py:42-66): populations are sequences in creation order, and the collision pass reads snapshots as described above.
- The player's `velocity` field is never changed by player.py, so the model keeps it at rest and never uses it.
- The main loop is unbounded and is not modelled as such. `Game.Run` plays any finite sequence of frames.
- After a spawn, `AsteroidField.update` resets the timer to the integer 0 rather than 0.0 (asteroidfield.py:80). Python compares the two equally, so the model uses 0.0.
- Collisions.Pass: its own contract gives only the length of the hit record. The exact count of each asteroid's hits is stated by `Collisions.PassHitCount`, and which asteroids are hit by `Collisions.HitIffFirstHit`.
- Game.Step: its own contract states only the quit case. `Game.StepEndsGameIff` states the game-over case. `Game.StepShotsSurviveIff`, `Game.StepAsteroidsFromBefore`, `Game.StepNextWorld` and `Game.StepSplitsHitAsteroids` state the next world. These lemmas do not state the order of the surviving asteroids or of the children, and they give the surviving shots as a set rather than a sequence.
- Game.RunQuitStops: a quit frame stops the run at that frame or earlier. The lemma does not say which frame ended the run.
- Game.FirstShot: stated of the player's update from start-up with frame time 0. That main's first frame runs with frame time 0 is stated by `Game.Play` and `Game.PlayFirstFrameThenRun`, and `Game.FirstFrame` states the shot in the world the first frame leaves.
- Game.FirstUpdate: stated of the update phase from start-up with frame time 0. It is tied to main's first frame in the same way as `Game.FirstShot`.
- Game.FirstFrame: requires a frame without a QUIT event. `Game.Play` states that a QUIT in the first frame ends the game.
- Game.Run: its own contract pins down runs of one frame and the quit and game-over cases. Longer runs, with each later frame timed by the previous tick, are stated by `Game.RunUnfold`, `Game.RunPrepend` and `Game.RunAppend`.
- Game.Play: its own contract pins down games of no frames and of one frame and the quit cases. Longer games are stated by `Game.PlayFirstFrameThenRun`, with `Game.RunAppend` for later frames.
- Collisions.ChildrenOfHit: the index of the first split angle used for asteroid i is given as some j at or after k, not as k plus the hits on the asteroids before i.
- Game.StepSplitsHitAsteroids: as for `Collisions.ChildrenOfHit`, the split angles' index is given only as existing.
- Collisions.SurvivorsDropHit: states only that a hit asteroid has fewer copies. `Collisions.SurvivorsCount` gives the exact count.
- Players.Update: its own contract leaves out the single-key moves and the cooldown countdown. `Players.UpdateMovesAndReloads` states them for every input.
