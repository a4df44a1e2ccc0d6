/** Player (player.py): the ship, its turning, thrust and fire cooldown. */
module Players {
  import opened Vectors
  import opened Constants
  import opened Shapes
  import opened Wrappers
  import Shots

  /** The ship: its circle, heading in degrees and the fire cooldown timer. */
  datatype Player = Player(body: Circle, rotation: real, shotTimer: real)

  /** The keys update reads: K_LEFT, K_RIGHT, K_UP, K_DOWN and K_SPACE. */
  datatype Keys = Keys(left: bool, right: bool, up: bool, down: bool, space: bool)

  /** The player after shoot or update, and the shot it fired, if any. */
  datatype Fired = Fired(player: Player, shot: Option<Circle>)

  /** Player.__init__: radius PLAYER_RADIUS, facing up, ready to fire. */
  function NewPlayer(x: real, y: real): (p: Player)
    ensures p.body == NewCircle(x, y, PLAYER_RADIUS)
    ensures p.rotation == 0.0 && p.shotTimer == 0.0
  {
    Player(NewCircle(x, y, PLAYER_RADIUS), 0.0, 0.0)
  }

  /** The unit vector (0, 1) turned to the ship's heading: still of unit
      length, and (0, 1) itself at the heading whose pair is (1, 0). */
  function Forward(trig: Trig, rotation: real): (f: Vec2)
    ensures LengthSq(trig(rotation)) == 1.0 ==> LengthSq(f) == 1.0
    ensures trig(rotation) == Vec2(1.0, 0.0) ==> f == Vec2(0.0, 1.0)
  {
    Vectors.Rotate(trig, Vec2(0.0, 1.0), rotation)
  }

  /** Player.rotate: turn by PLAYER_TURN_SPEED * dt degrees, with no wrap. */
  function Rotate(p: Player, dt: real): (r: Player)
    ensures r.body == p.body && r.shotTimer == p.shotTimer
    ensures r.rotation - p.rotation == PLAYER_TURN_SPEED * dt
  {
    p.(rotation := p.rotation + PLAYER_TURN_SPEED * dt)
  }

  /** Player.move: thrust along the heading, with no screen clamping. */
  function Move(p: Player, dt: real, trig: Trig): (r: Player)
    ensures r.rotation == p.rotation && r.shotTimer == p.shotTimer
    ensures r.body.velocity == p.body.velocity && r.body.radius == p.body.radius
    ensures r.body.position == Add(p.body.position, Scale(Forward(trig, p.rotation), PLAYER_SPEED * dt))
  {
    var forward := Forward(trig, p.rotation);
    p.(body := p.body.(position := Add(p.body.position, Scale(Scale(forward, PLAYER_SPEED), dt))))
  }

  /** Thrusting forward and back for the same dt returns to the start. */
  lemma MoveThereAndBack(p: Player, dt: real, trig: Trig)
    ensures Move(Move(p, dt, trig), -dt, trig) == p
  {
  }

  /** Player.shoot: while the cooldown runs it only counts down by dt; once
      it has run out, one shot leaves the ship's centre at PLAYER_SHOT_SPEED
      along the heading and the cooldown restarts. */
  function Shoot(p: Player, dt: real, trig: Trig): (r: Fired)
    ensures p.shotTimer > 0.0 ==>
              r.shot == None && r.player == p.(shotTimer := p.shotTimer - dt)
    ensures p.shotTimer <= 0.0 ==>
              r.player == p.(shotTimer := PLAYER_SHOT_COOLDOWN) &&
              r.shot.Some? && r.shot.value.position == p.body.position &&
              r.shot.value.radius == SHOT_RADIUS &&
              r.shot.value.velocity == Scale(Forward(trig, p.rotation), PLAYER_SHOT_SPEED)
  {
    if p.shotTimer > 0.0 then
      Fired(p.(shotTimer := p.shotTimer - dt), None)
    else
      var shot := Shots.NewShot(p.body.position.x, p.body.position.y, SHOT_RADIUS);
      var shot := shot.(velocity := Scale(Forward(trig, p.rotation), PLAYER_SHOT_SPEED));
      Fired(p.(shotTimer := PLAYER_SHOT_COOLDOWN), Some(shot))
  }

  /** Of two consecutive shoot calls at most one fires. */
  lemma NoTwoShotsInARow(p: Player, dt1: real, dt2: real, trig: Trig)
    ensures Shoot(p, dt1, trig).shot.None? || Shoot(Shoot(p, dt1, trig).player, dt2, trig).shot.None?
  {
  }

  /** A new player fires on its first attempt, straight along (0, 1) rotated
      by 0 degrees, that is (0, PLAYER_SHOT_SPEED). */
  lemma NewPlayerFiresAtOnce(x: real, y: real, dt: real, trig: Trig)
    requires ValidTrig(trig)
    ensures Shoot(NewPlayer(x, y), dt, trig).shot ==
              Some(Circle(Vec2(x, y), Vec2(0.0, PLAYER_SHOT_SPEED), SHOT_RADIUS))
  {
    RotateByZero(trig, Vec2(0.0, 1.0));
  }

  /** Player.update: apply the held keys in the source's order (left, right,
      up, down, space). Turning is the net of the two turn keys, thrust the
      net of the two thrust keys, and the cooldown moves only while fire is held. */
  function Update(p: Player, keys: Keys, dt: real, trig: Trig): (r: Fired)
    ensures r.player.rotation ==
              p.rotation + PLAYER_TURN_SPEED * ((if keys.right then dt else 0.0) - (if keys.left then dt else 0.0))
    ensures keys.up == keys.down ==> r.player.body.position == p.body.position
    ensures r.player.body.velocity == p.body.velocity && r.player.body.radius == p.body.radius
    ensures !keys.space ==> r.shot == None && r.player.shotTimer == p.shotTimer
    ensures keys.space && p.shotTimer <= 0.0 ==> r.shot.Some?
    ensures r.shot.Some? ==>
              keys.space && p.shotTimer <= 0.0 &&
              r.shot.value.position == r.player.body.position &&
              r.shot.value.radius == SHOT_RADIUS &&
              r.shot.value.velocity == Scale(Forward(trig, r.player.rotation), PLAYER_SHOT_SPEED)
  {
    var moved := Thrust(Steer(p, keys, dt), keys, dt, trig);
    if keys.space then Shoot(moved, dt, trig) else Fired(moved, None)
  }

  /** With exactly one thrust key held the ship moves PLAYER_SPEED * dt
      along the heading it turned to this frame (up) or against it (down);
      fire held while the cooldown is still positive only counts the
      cooldown down; a shot restarts the cooldown at PLAYER_SHOT_COOLDOWN. */
  lemma UpdateMovesAndReloads(p: Player, keys: Keys, dt: real, trig: Trig)
    ensures var r := Update(p, keys, dt, trig);
      keys.up && !keys.down ==>
        r.player.body.position == Add(p.body.position, Scale(Forward(trig, r.player.rotation), PLAYER_SPEED * dt))
    ensures var r := Update(p, keys, dt, trig);
      keys.down && !keys.up ==>
        r.player.body.position == Add(p.body.position, Scale(Forward(trig, r.player.rotation), PLAYER_SPEED * -dt))
    ensures var r := Update(p, keys, dt, trig);
      keys.space && p.shotTimer > 0.0 ==> r.shot == None && r.player.shotTimer == p.shotTimer - dt
    ensures var r := Update(p, keys, dt, trig);
      r.shot.Some? ==> r.player.shotTimer == PLAYER_SHOT_COOLDOWN
  {
  }

  /** The turn keys of Player.update: left turns by -dt, then right by dt. */
  function Steer(p: Player, keys: Keys, dt: real): (r: Player)
    ensures r.body == p.body && r.shotTimer == p.shotTimer
    ensures r.rotation ==
              p.rotation + PLAYER_TURN_SPEED * ((if keys.right then dt else 0.0) - (if keys.left then dt else 0.0))
  {
    var turned := if keys.left then Rotate(p, -dt) else p;
    if keys.right then Rotate(turned, dt) else turned
  }

  /** The thrust keys of Player.update, along the heading left by the turn
      keys: up moves forward by dt, then down by -dt, so holding both (or
      neither) leaves the ship where it was. */
  function Thrust(p: Player, keys: Keys, dt: real, trig: Trig): (r: Player)
    ensures r.rotation == p.rotation && r.shotTimer == p.shotTimer
    ensures r.body.velocity == p.body.velocity && r.body.radius == p.body.radius
    ensures keys.up == keys.down ==> r == p
    ensures keys.up && !keys.down ==>
              r.body.position == Add(p.body.position, Scale(Forward(trig, p.rotation), PLAYER_SPEED * dt))
    ensures keys.down && !keys.up ==>
              r.body.position == Add(p.body.position, Scale(Forward(trig, p.rotation), PLAYER_SPEED * -dt))
  {
    var forward := if keys.up then Move(p, dt, trig) else p;
    if keys.down then Move(forward, -dt, trig) else forward
  }

  /** With frame time 0 (the first frame) the ship neither turns nor moves,
      whatever keys are held. */
  lemma UpdateAtZeroTime(p: Player, keys: Keys, trig: Trig)
    ensures Update(p, keys, 0.0, trig).player.body == p.body
    ensures Update(p, keys, 0.0, trig).player.rotation == p.rotation
  {
    forall q: Player
      ensures Move(q, 0.0, trig).body == q.body && Move(q, -0.0, trig).body == q.body
    {
      var step := Scale(Scale(Forward(trig, q.rotation), PLAYER_SPEED), 0.0);
      assert step == Vec2(0.0, 0.0);
      assert Add(q.body.position, step) == q.body.position;
    }
  }

  /** The cooldown never exceeds PLAYER_SHOT_COOLDOWN once frame times are
      non-negative. */
  lemma UpdateKeepsCooldownBounded(p: Player, keys: Keys, dt: real, trig: Trig)
    requires p.shotTimer <= PLAYER_SHOT_COOLDOWN && dt >= 0.0
    ensures Update(p, keys, dt, trig).player.shotTimer <= PLAYER_SHOT_COOLDOWN
  {
  }
}
