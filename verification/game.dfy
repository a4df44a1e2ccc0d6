/** The main loop (main.py): start-up, one frame (quit check, update phase,
    collision pass) and a run over a sequence of frames.

    Each frame's outside world arrives as an Input: whether a QUIT event is
    queued, the held keys, the random draws of the frame and the milliseconds
    clock.tick reports at its end. The frame time of a frame is the previous
    frame's tick in seconds, 0 for the first frame. */
module Game {
  import opened Wrappers
  import opened Vectors
  import opened Constants
  import opened Shapes
  import Asteroids
  import Shots
  import Players
  import Field
  import Collisions

  /** The live sprites: the player, the asteroid field, and the asteroid and
      shot groups in group (insertion) order. */
  datatype World = World(player: Players.Player, field: Field.AsteroidField,
                         asteroids: seq<Circle>, shots: seq<Circle>)

  /** What one frame reads from outside: the event queue's QUIT, the held
      keys, the spawn draws of AsteroidField.update, the split angles
      (the frame's i-th split uses angles(i)) and clock.tick's milliseconds. */
  datatype Input = Input(quit: bool, keys: Players.Keys, spawn: Field.SpawnRoll,
                         angles: nat -> real, tickMs: nat)

  /** How a frame ends: the window was closed (main returns), an asteroid
      reached the player (exit()), or play goes on with the new world. */
  datatype Frame = Quit | GameOver | Next(world: World)

  /** The game at start-up: the player at the screen's centre, a fresh field,
      no asteroids and no shots. */
  function Start(): (w: World)
    ensures w.player.body.position == Vec2(SCREEN_WIDTH as real / 2.0, SCREEN_HEIGHT as real / 2.0)
    ensures w.player.body.velocity == Vec2(0.0, 0.0) && w.player.body.radius == PLAYER_RADIUS
    ensures w.player.rotation == 0.0 && w.player.shotTimer == 0.0
    ensures w.field.spawnTimer == 0.0 && w.asteroids == [] && w.shots == []
  {
    World(Players.NewPlayer(SCREEN_WIDTH as real / 2.0, SCREEN_HEIGHT as real / 2.0), Field.NewField(), [], [])
  }

  /** Every circle of the sequence drifted for dt seconds. */
  function DriftAll(cs: seq<Circle>, dt: real): (r: seq<Circle>)
    ensures |r| == |cs| && forall i :: 0 <= i < |cs| ==> r[i] == Drift(cs[i], dt)
  {
    seq(|cs|, i requires 0 <= i < |cs| => Drift(cs[i], dt))
  }

  /** The update phase: the updatable group is iterated over a snapshot, so
      the player updates first, then the field, then every asteroid and shot
      alive when the phase began, each exactly once; the shot the player
      fires and the asteroid the field spawns join their groups at the end
      and do not move in this frame. */
  function UpdatePhase(w: World, input: Input, dt: real, trig: Trig): (u: World)
    ensures u.player == Players.Update(w.player, input.keys, dt, trig).player
    ensures u.field == Field.Update(w.field, dt, input.spawn, trig).field
    ensures |u.asteroids| == |w.asteroids| + |ToSeq(Field.Update(w.field, dt, input.spawn, trig).asteroid)|
    ensures forall i :: 0 <= i < |w.asteroids| ==> u.asteroids[i] == Asteroids.Update(w.asteroids[i], dt)
    ensures u.asteroids[|w.asteroids|..] == ToSeq(Field.Update(w.field, dt, input.spawn, trig).asteroid)
    ensures |u.shots| == |w.shots| + |ToSeq(Players.Update(w.player, input.keys, dt, trig).shot)|
    ensures forall i :: 0 <= i < |w.shots| ==> u.shots[i] == Shots.Update(w.shots[i], dt)
    ensures u.shots[|w.shots|..] == ToSeq(Players.Update(w.player, input.keys, dt, trig).shot)
  {
    var fired := Players.Update(w.player, input.keys, dt, trig);
    var spawned := Field.Update(w.field, dt, input.spawn, trig);
    World(fired.player, spawned.field,
          DriftAll(w.asteroids, dt) + ToSeq(spawned.asteroid),
          DriftAll(w.shots, dt) + ToSeq(fired.shot))
  }

  /** One pass of the main loop's body with frame time dt. A queued QUIT
      ends the game before anything moves; otherwise the update phase runs,
      then the collision pass over the updated groups, whose split angles
      are counted from the frame's first split. The surviving snapshot
      asteroids keep their order and the children follow in creation order. */
  function Step(w: World, input: Input, dt: real, trig: Trig): (f: Frame)
    ensures f.Quit? <==> input.quit
  {
    if input.quit then Quit
    else
      var u := UpdatePhase(w, input, dt, trig);
      var pass := Collisions.Pass(u.asteroids, u.player.body, u.shots);
      if pass.PlayerHit? then GameOver
      else
        var survivors := Collisions.Survivors(u.asteroids, pass.hits);
        var children := Collisions.Children(u.asteroids, pass.hits, input.angles, 0, trig);
        Next(World(u.player, u.field, survivors + children, pass.shots))
  }

  /** The frame ends the game exactly when, after the update phase, some
      asteroid (including one spawned in this frame) overlaps the player. */
  lemma StepEndsGameIff(w: World, input: Input, dt: real, trig: Trig)
    ensures var u := UpdatePhase(w, input, dt, trig);
      Step(w, input, dt, trig).GameOver? <==>
        !input.quit && exists a :: a in u.asteroids && Collides(a, u.player.body)
  {
    var u := UpdatePhase(w, input, dt, trig);
    Collisions.PassEndsGameIff(u.asteroids, u.player.body, u.shots);
  }

  /** After a frame that goes on, a shot is alive exactly when it was alive
      after the update phase and overlaps none of the asteroids then alive. */
  lemma StepShotsSurviveIff(w: World, input: Input, dt: real, trig: Trig)
    requires Step(w, input, dt, trig).Next?
    ensures var u := UpdatePhase(w, input, dt, trig);
      forall s :: s in Step(w, input, dt, trig).world.shots <==>
        s in u.shots && forall a :: a in u.asteroids ==> !Collides(a, s)
  {
    var u := UpdatePhase(w, input, dt, trig);
    Collisions.PassShotsSurviveIff(u.asteroids, u.player.body, u.shots);
  }

  /** After a frame that goes on, every asteroid is either one that was alive
      after the update phase or a child of one: at its centre and
      ASTEROID_MIN_RADIUS smaller. An asteroid that no shot overlapped
      survives the frame. */
  lemma StepAsteroidsFromBefore(w: World, input: Input, dt: real, trig: Trig)
    requires Step(w, input, dt, trig).Next?
    ensures var u := UpdatePhase(w, input, dt, trig);
      forall a :: a in Step(w, input, dt, trig).world.asteroids ==>
        a in u.asteroids || Collisions.Descends(a, u.asteroids)
    ensures var u := UpdatePhase(w, input, dt, trig);
      forall a :: a in u.asteroids && (forall s :: s in u.shots ==> !Collides(a, s)) ==>
        a in Step(w, input, dt, trig).world.asteroids
  {
    var u := UpdatePhase(w, input, dt, trig);
    var pass := Collisions.Pass(u.asteroids, u.player.body, u.shots);
    Collisions.ChildrenDescend(u.asteroids, pass.hits, input.angles, 0, trig);
    forall a | a in Collisions.Survivors(u.asteroids, pass.hits)
      ensures a in u.asteroids
    {
      Collisions.SurvivorsMembers(u.asteroids, pass.hits, a);
    }
    forall a | a in u.asteroids && (forall s :: s in u.shots ==> !Collides(a, s))
      ensures a in Collisions.Survivors(u.asteroids, pass.hits)
    {
      var i :| 0 <= i < |u.asteroids| && u.asteroids[i] == a;
      Collisions.HitIffFirstHit(u.asteroids, u.player.body, u.shots, i);
      Collisions.SurvivorsMembers(u.asteroids, pass.hits, a);
    }
  }

  /** After a frame that goes on, the player and the field are the ones the
      update phase left and the asteroid group is the snapshot asteroids no
      shot hit, counted with multiplicity the group after the update phase
      less exactly one copy per hit asteroid, followed by the children: two
      per hit on an asteroid of radius at least ASTEROID_MIN_RADIUS, each
      descending from a snapshot asteroid. */
  lemma StepNextWorld(w: World, input: Input, dt: real, trig: Trig)
    requires Step(w, input, dt, trig).Next?
    ensures var u := UpdatePhase(w, input, dt, trig);
      var pass := Collisions.Pass(u.asteroids, u.player.body, u.shots);
      var next := Step(w, input, dt, trig).world;
      && pass.Cleared? && next.player == u.player && next.field == u.field
      && |next.asteroids| ==
           |u.asteroids| - Collisions.HitCount(pass.hits) + 2 * Collisions.SplittableHits(u.asteroids, pass.hits)
    ensures var u := UpdatePhase(w, input, dt, trig);
      var pass := Collisions.Pass(u.asteroids, u.player.body, u.shots);
      var next := Step(w, input, dt, trig).world;
      var kept := |u.asteroids| - Collisions.HitCount(pass.hits);
      && 0 <= kept <= |next.asteroids|
      && multiset(next.asteroids[..kept]) <= multiset(u.asteroids)
      && (forall i :: 0 <= i < |u.asteroids| && (exists s :: s in u.shots && Collisions.FirstHit(u.asteroids, s, i)) ==>
            multiset(next.asteroids[..kept])[u.asteroids[i]] < multiset(u.asteroids)[u.asteroids[i]])
      && (forall c :: c in next.asteroids[kept..] ==> Collisions.Descends(c, u.asteroids))
      && (forall x :: multiset(next.asteroids[..kept])[x] + Collisions.HitCopies(u.asteroids, pass.hits, x) ==
                      multiset(u.asteroids)[x])
  {
    var u := UpdatePhase(w, input, dt, trig);
    var pass := Collisions.Pass(u.asteroids, u.player.body, u.shots);
    Collisions.SurvivorsThenChildren(u.asteroids, pass.hits, input.angles, 0, trig);
    forall i | 0 <= i < |u.asteroids| && (exists s :: s in u.shots && Collisions.FirstHit(u.asteroids, s, i))
      ensures pass.hits[i] > 0
    {
      Collisions.HitIffFirstHit(u.asteroids, u.player.body, u.shots, i);
    }
  }

  /** After a frame that goes on, every asteroid alive after the update phase
      has all its splits among the asteroids, counted with multiplicity: one
      split per shot that overlapped it first, made with consecutive split
      angles of the frame. In particular an asteroid a shot hit first has
      both children of a split among them, unless it is smaller than
      ASTEROID_MIN_RADIUS. */
  lemma StepSplitsHitAsteroids(w: World, input: Input, dt: real, trig: Trig, i: int)
    returns (j: nat)
    requires Step(w, input, dt, trig).Next?
    requires 0 <= i < |UpdatePhase(w, input, dt, trig).asteroids|
    ensures var u := UpdatePhase(w, input, dt, trig);
      multiset(Collisions.Splits(u.asteroids[i], input.angles, j,
                                 Collisions.CountFirstHits(u.asteroids, u.shots, i), trig)) <=
      multiset(Step(w, input, dt, trig).world.asteroids)
    ensures var u := UpdatePhase(w, input, dt, trig);
      (exists s :: s in u.shots && Collisions.FirstHit(u.asteroids, s, i)) ==>
        multiset(Asteroids.Split(u.asteroids[i], input.angles(j), trig)) <=
        multiset(Step(w, input, dt, trig).world.asteroids)
  {
    var u := UpdatePhase(w, input, dt, trig);
    var pass := Collisions.Pass(u.asteroids, u.player.body, u.shots);
    var survivors := Collisions.Survivors(u.asteroids, pass.hits);
    var children := Collisions.Children(u.asteroids, pass.hits, input.angles, 0, trig);
    assert Step(w, input, dt, trig).world.asteroids == survivors + children;
    j := Collisions.ChildrenOfHit(u.asteroids, pass.hits, input.angles, 0, trig, i);
    Collisions.PassHitCount(u.asteroids, u.player.body, u.shots, i);
    var splits := Collisions.Splits(u.asteroids[i], input.angles, j, pass.hits[i], trig);
    if exists s :: s in u.shots && Collisions.FirstHit(u.asteroids, s, i) {
      Collisions.HitIffFirstHit(u.asteroids, u.player.body, u.shots, i);
      Collisions.SplitsStep(u.asteroids[i], input.angles, j, pass.hits[i], trig);
      assert multiset(Asteroids.Split(u.asteroids[i], input.angles(j), trig)) <= multiset(splits);
    }
  }

  /** The properties every reachable world keeps: the player's size and
      cooldown bound, the spawn timer's range, the radii the split rule can
      produce from the spawned kinds, and the shot size. */
  predicate WorldInv(w: World) {
    && w.player.body.radius == PLAYER_RADIUS
    && w.player.shotTimer <= PLAYER_SHOT_COOLDOWN
    && 0.0 <= w.field.spawnTimer <= ASTEROID_SPAWN_RATE
    && (forall a :: a in w.asteroids ==> Asteroids.RadiusOk(a.radius))
    && (forall s :: s in w.shots ==> s.radius == SHOT_RADIUS)
  }

  lemma StartInv()
    ensures WorldInv(Start())
  {
  }

  /** The update phase keeps the invariant for non-negative frame times and
      spawn draws in their ranges. */
  lemma UpdatePhaseKeepsInv(w: World, input: Input, dt: real, trig: Trig)
    requires WorldInv(w) && 0.0 <= dt && Field.ValidRoll(input.spawn)
    ensures WorldInv(UpdatePhase(w, input, dt, trig))
  {
    Players.UpdateKeepsCooldownBounded(w.player, input.keys, dt, trig);
    Field.UpdateKeepsTimerBounded(w.field, dt, input.spawn, trig);
    UpdatedAsteroidsOk(w, input, dt, trig);
    UpdatedShotsOk(w, input, dt, trig);
  }

  /** Drifted and spawned asteroids have radii the split rule can produce. */
  lemma UpdatedAsteroidsOk(w: World, input: Input, dt: real, trig: Trig)
    requires WorldInv(w) && Field.ValidRoll(input.spawn)
    ensures forall a :: a in UpdatePhase(w, input, dt, trig).asteroids ==> Asteroids.RadiusOk(a.radius)
  {
    var u := UpdatePhase(w, input, dt, trig);
    forall a | a in u.asteroids
      ensures Asteroids.RadiusOk(a.radius)
    {
      var i :| 0 <= i < |u.asteroids| && u.asteroids[i] == a;
      if i < |w.asteroids| {
        assert w.asteroids[i] in w.asteroids;
      } else {
        assert a in u.asteroids[|w.asteroids|..];
      }
    }
  }

  /** Moved and fired shots have SHOT_RADIUS. */
  lemma UpdatedShotsOk(w: World, input: Input, dt: real, trig: Trig)
    requires WorldInv(w)
    ensures forall s :: s in UpdatePhase(w, input, dt, trig).shots ==> s.radius == SHOT_RADIUS
  {
    var u := UpdatePhase(w, input, dt, trig);
    forall s | s in u.shots
      ensures s.radius == SHOT_RADIUS
    {
      var i :| 0 <= i < |u.shots| && u.shots[i] == s;
      if i < |w.shots| {
        assert w.shots[i] in w.shots;
      } else {
        assert s in u.shots[|w.shots|..];
      }
    }
  }

  /** A frame that goes on keeps the invariant. */
  lemma StepKeepsInv(w: World, input: Input, dt: real, trig: Trig)
    requires WorldInv(w) && 0.0 <= dt && Field.ValidRoll(input.spawn)
    ensures Step(w, input, dt, trig).Next? ==> WorldInv(Step(w, input, dt, trig).world)
  {
    if Step(w, input, dt, trig).Next? {
      var u := UpdatePhase(w, input, dt, trig);
      UpdatePhaseKeepsInv(w, input, dt, trig);
      StepAsteroidsFromBefore(w, input, dt, trig);
      StepShotsSurviveIff(w, input, dt, trig);
      var next := Step(w, input, dt, trig).world;
      InvFromBefore(u, next);
    }
  }

  /** A world made of the player and field of an invariant world, some of its
      asteroids and children of them, and some of its shots, is invariant. */
  lemma InvFromBefore(u: World, next: World)
    requires WorldInv(u) && next.player == u.player && next.field == u.field
    requires forall a :: a in next.asteroids ==> a in u.asteroids || Collisions.Descends(a, u.asteroids)
    requires forall s :: s in next.shots ==> s in u.shots
    ensures WorldInv(next)
  {
    forall a | a in next.asteroids
      ensures Asteroids.RadiusOk(a.radius)
    {
      if !(a in u.asteroids) {
        var parent :| parent in u.asteroids && Collisions.ChildOf(a, parent);
        assert Asteroids.RadiusOk(parent.radius);
      }
    }
  }

  /** The shot fired in a frame that goes on is still alive at its end: it
      sits at the player's centre and is smaller than the player, so any
      asteroid reaching it reaches the player first. */
  lemma FreshShotSurvivesItsFrame(w: World, input: Input, dt: real, trig: Trig)
    requires WorldInv(w)
    requires Step(w, input, dt, trig).Next?
    requires Players.Update(w.player, input.keys, dt, trig).shot.Some?
    ensures Players.Update(w.player, input.keys, dt, trig).shot.value in Step(w, input, dt, trig).world.shots
  {
    var u := UpdatePhase(w, input, dt, trig);
    var shot := Players.Update(w.player, input.keys, dt, trig).shot.value;
    assert shot in u.shots by {
      assert u.shots[|w.shots|..] == [shot];
    }
    StepEndsGameIff(w, input, dt, trig);
    StepShotsSurviveIff(w, input, dt, trig);
    forall a | a in u.asteroids
      ensures !Collides(a, shot)
    {
      CollidesMonotone(a, shot, u.player.body);
    }
  }

  /** Fire held in the first frame shoots from the screen's centre straight
      down its y axis at PLAYER_SHOT_SPEED. */
  lemma FirstShot(keys: Players.Keys, trig: Trig)
    requires ValidTrig(trig) && keys.space
    ensures Players.Update(Start().player, keys, 0.0, trig).shot ==
              Some(Circle(Vec2(640.0, 360.0), Vec2(0.0, 500.0), 5))
  {
    var fired := Players.Update(Start().player, keys, 0.0, trig);
    Players.UpdateAtZeroTime(Start().player, keys, trig);
    assert Players.Forward(trig, fired.player.rotation) == Vec2(0.0, 1.0);
    assert fired.shot.value.velocity == Scale(Vec2(0.0, 1.0), PLAYER_SHOT_SPEED);
  }

  /** The update phase of the first frame (frame time 0). */
  lemma FirstUpdate(input: Input, trig: Trig)
    requires ValidTrig(trig)
    ensures var u := UpdatePhase(Start(), input, 0.0, trig);
      u.asteroids == [] && u.field.spawnTimer == 0.0 &&
      u.player.body.position == Vec2(640.0, 360.0) && u.player.rotation == 0.0 &&
      u.player.shotTimer == (if input.keys.space then PLAYER_SHOT_COOLDOWN else 0.0) &&
      u.shots == (if input.keys.space then [Circle(Vec2(640.0, 360.0), Vec2(0.0, 500.0), 5)] else [])
  {
    var u := UpdatePhase(Start(), input, 0.0, trig);
    Players.UpdateAtZeroTime(Start().player, input.keys, trig);
    assert u.asteroids == [];
    if input.keys.space {
      FirstShot(input.keys, trig);
      assert u.shots == [Circle(Vec2(640.0, 360.0), Vec2(0.0, 500.0), 5)];
    } else {
      assert u.shots == [];
    }
  }

  /** A game of one frame, which main runs with frame time 0: nothing has
      moved or turned, no asteroid has spawned, and holding fire shoots
      straight down the screen's y axis from its centre at PLAYER_SHOT_SPEED
      and starts the cooldown. */
  lemma FirstFrame(input: Input, trig: Trig)
    requires ValidTrig(trig) && !input.quit
    ensures var f := Play([input], trig);
      f.Next? && f.world.asteroids == [] && f.world.field.spawnTimer == 0.0 &&
      f.world.player.body.position == Vec2(640.0, 360.0) && f.world.player.rotation == 0.0 &&
      f.world.player.shotTimer == (if input.keys.space then PLAYER_SHOT_COOLDOWN else 0.0) &&
      f.world.shots == (if input.keys.space then [Circle(Vec2(640.0, 360.0), Vec2(0.0, 500.0), 5)] else [])
  {
    var u := UpdatePhase(Start(), input, 0.0, trig);
    FirstUpdate(input, trig);
    assert Collisions.Pass(u.asteroids, u.player.body, u.shots) == Collisions.Cleared([], u.shots);
  }

  /** The frame time of the next frame: clock.tick's milliseconds in seconds. */
  function Seconds(tickMs: nat): (dt: real)
    ensures 0.0 <= dt && (dt == 0.0 <==> tickMs == 0)
    ensures dt * 1000.0 == tickMs as real
  {
    tickMs as real / 1000.0
  }

  /** main's loop from world w, the first frame with frame time dt and each
      later one with the previous frame's tick: it stops at the first frame
      that quits or ends the game; if the frames run out, the world after
      the last one. */
  function Run(w: World, frames: seq<Input>, dt: real, trig: Trig): (f: Frame)
    ensures f.Quit? ==> exists i :: 0 <= i < |frames| && frames[i].quit
    ensures f.GameOver? ==> exists i :: 0 <= i < |frames| && !frames[i].quit
    ensures frames != [] && frames[0].quit ==> f == Quit
    ensures |frames| == 1 ==> f == Step(w, frames[0], dt, trig)
    decreases |frames|
  {
    if frames == [] then Next(w)
    else
      var f := Step(w, frames[0], dt, trig);
      if f.Next? then Run(f.world, frames[1..], Seconds(frames[0].tickMs), trig) else f
  }

  /** main: the loop from start-up, whose first frame has frame time 0. */
  function Play(frames: seq<Input>, trig: Trig): (f: Frame)
    ensures frames == [] ==> f == Next(Start())
    ensures f.Quit? ==> exists i :: 0 <= i < |frames| && frames[i].quit
    ensures frames != [] && frames[0].quit ==> f == Quit
    ensures |frames| == 1 ==> f == Step(Start(), frames[0], 0.0, trig)
  {
    Run(Start(), frames, 0.0, trig)
  }

  /** One turn of main's loop: the first frame, then the rest with its tick. */
  lemma RunUnfold(w: World, frames: seq<Input>, dt: real, trig: Trig)
    requires frames != []
    ensures var f := Step(w, frames[0], dt, trig);
            Run(w, frames, dt, trig) ==
              if f.Next? then Run(f.world, frames[1..], Seconds(frames[0].tickMs), trig) else f
  {
  }

  /** Playing one frame and then ys: the frame, then ys with its tick. */
  lemma RunPrepend(w: World, x: Input, ys: seq<Input>, dt: real, trig: Trig)
    ensures Run(w, [x] + ys, dt, trig) ==
              var f := Run(w, [x], dt, trig);
              if f.Next? then Run(f.world, ys, Seconds(x.tickMs), trig) else f
  {
    RunUnfold(w, [x] + ys, dt, trig);
    assert ([x] + ys)[0] == x && ([x] + ys)[1..] == ys;
  }

  /** Playing xs and then ys is playing xs and, unless that stopped the game,
      going on from its world with the frame time of the last tick of xs. */
  lemma {:induction false} RunAppend(w: World, xs: seq<Input>, ys: seq<Input>, dt: real, trig: Trig)
    requires xs != []
    ensures Run(w, xs + ys, dt, trig) ==
              var f := Run(w, xs, dt, trig);
              if f.Next? then Run(f.world, ys, Seconds(xs[|xs| - 1].tickMs), trig) else f
    decreases |xs|
  {
    if |xs| == 1 {
      assert xs == [xs[0]];
      RunPrepend(w, xs[0], ys, dt, trig);
    } else {
      var rest := xs[1..];
      assert xs == [xs[0]] + rest && xs + ys == [xs[0]] + (rest + ys);
      RunPrepend(w, xs[0], rest + ys, dt, trig);
      RunPrepend(w, xs[0], rest, dt, trig);
      var f := Run(w, [xs[0]], dt, trig);
      if f.Next? {
        RunAppend(f.world, rest, ys, Seconds(xs[0].tickMs), trig);
        assert rest[|rest| - 1] == xs[|xs| - 1];
      }
    }
  }

  /** main: the first frame runs from start-up with frame time 0; unless it
      stops the game, the loop goes on from its world with the first tick's
      frame time. */
  lemma PlayFirstFrameThenRun(frames: seq<Input>, trig: Trig)
    requires frames != []
    ensures Play(frames, trig) ==
              var f := Step(Start(), frames[0], 0.0, trig);
              if f.Next? then Run(f.world, frames[1..], Seconds(frames[0].tickMs), trig) else f
  {
    RunAppend(Start(), [frames[0]], frames[1..], 0.0, trig);
    assert [frames[0]] + frames[1..] == frames;
  }

  /** A run that goes on keeps the invariant, given spawn draws in range. */
  lemma {:induction false} RunKeepsInv(w: World, frames: seq<Input>, dt: real, trig: Trig)
    requires WorldInv(w) && 0.0 <= dt
    requires forall i :: 0 <= i < |frames| ==> Field.ValidRoll(frames[i].spawn)
    ensures Run(w, frames, dt, trig).Next? ==> WorldInv(Run(w, frames, dt, trig).world)
    decreases |frames|
  {
    if frames != [] && Step(w, frames[0], dt, trig).Next? {
      StepKeepsInv(w, frames[0], dt, trig);
      RunKeepsInv(Step(w, frames[0], dt, trig).world, frames[1..], Seconds(frames[0].tickMs), trig);
    }
  }

  /** A run goes on through all its frames exactly when none of them quits
      and none ends the game; a queued QUIT stops it with Quit unless the
      game ended in an earlier frame. */
  lemma {:induction false} RunQuitStops(w: World, frames: seq<Input>, dt: real, trig: Trig, i: int)
    requires 0 <= i < |frames| && frames[i].quit
    ensures Run(w, frames, dt, trig).Quit? || Run(w, frames, dt, trig).GameOver?
    decreases |frames|
  {
    RunUnfold(w, frames, dt, trig);
    if i > 0 && Step(w, frames[0], dt, trig).Next? {
      assert frames[1..][i - 1].quit;
      RunQuitStops(Step(w, frames[0], dt, trig).world, frames[1..], Seconds(frames[0].tickMs), trig, i - 1);
    }
  }

  /** Every reachable world keeps the invariant. */
  lemma PlayKeepsInv(frames: seq<Input>, trig: Trig)
    requires forall i :: 0 <= i < |frames| ==> Field.ValidRoll(frames[i].spawn)
    ensures Play(frames, trig).Next? ==> WorldInv(Play(frames, trig).world)
  {
    StartInv();
    RunKeepsInv(Start(), frames, 0.0, trig);
  }
}
