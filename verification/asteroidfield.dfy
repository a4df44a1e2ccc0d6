/** AsteroidField (asteroidfield.py): a timer that emits one asteroid just
    outside a screen edge each time more than ASTEROID_SPAWN_RATE seconds
    have accumulated. */
module Field {
  import opened Vectors
  import opened Constants
  import opened Shapes
  import opened Wrappers

  /** One row of the edges table: the base direction of travel and where
      along the edge a uniform draw in [0, 1] places the asteroid. */
  datatype Edge = Edge(direction: Vec2, place: real -> Vec2)

  const MARGIN: real := ASTEROID_MAX_RADIUS as real
  const WIDTH: real := SCREEN_WIDTH as real
  const HEIGHT: real := SCREEN_HEIGHT as real

  /** AsteroidField.edges, in the source's order. */
  const Edges: seq<Edge> := [
    Edge(Vec2(1.0, 0.0), y => Vec2(-MARGIN, y * HEIGHT)),
    Edge(Vec2(-1.0, 0.0), y => Vec2(WIDTH + MARGIN, y * HEIGHT)),
    Edge(Vec2(0.0, 1.0), x => Vec2(x * WIDTH, -MARGIN)),
    Edge(Vec2(0.0, -1.0), x => Vec2(x * WIDTH, HEIGHT + MARGIN))
  ]

  type EdgeIndex = i: int | 0 <= i < 4

  /** The random draws of one spawn: random.choice of an edge, randint
      speed, randint deviation in degrees, uniform offset and randint kind. */
  datatype SpawnRoll = SpawnRoll(edge: EdgeIndex, speed: int, deviation: int, offset: real, kind: int)

  /** The ranges the random module draws from. */
  predicate ValidRoll(roll: SpawnRoll) {
    && 40 <= roll.speed <= 100
    && -30 <= roll.deviation <= 30
    && 0.0 <= roll.offset <= 1.0
    && 1 <= roll.kind <= ASTEROID_KINDS
  }

  datatype AsteroidField = AsteroidField(spawnTimer: real)

  /** The field after update, and the asteroid it spawned, if any. */
  datatype Spawned = Spawned(field: AsteroidField, asteroid: Option<Circle>)

  /** AsteroidField.__init__. */
  function NewField(): (f: AsteroidField)
    ensures f.spawnTimer == 0.0
  {
    AsteroidField(0.0)
  }

  /** AsteroidField.spawn: an asteroid with the given radius, centre and velocity. */
  function Spawn(radius: int, position: Vec2, velocity: Vec2): (a: Circle)
    ensures a.position == position && a.velocity == velocity && a.radius == radius
  {
    NewCircle(position.x, position.y, radius).(velocity := velocity)
  }

  /** AsteroidField.update: accrue dt; strictly past the spawn interval,
      reset the timer to 0 (dropping any overshoot) and spawn exactly one
      asteroid, however large dt is. */
  function Update(f: AsteroidField, dt: real, roll: SpawnRoll, trig: Trig): (r: Spawned)
    ensures r.asteroid.Some? <==> f.spawnTimer + dt > ASTEROID_SPAWN_RATE
    ensures r.asteroid.Some? ==> r.field.spawnTimer == 0.0
    ensures r.asteroid.None? ==> r.field.spawnTimer == f.spawnTimer + dt
    ensures r.field.spawnTimer <= ASTEROID_SPAWN_RATE
    ensures r.asteroid.Some? ==>
              var edge := Edges[roll.edge];
              r.asteroid.value.radius == ASTEROID_MIN_RADIUS * roll.kind &&
              r.asteroid.value.position == edge.place(roll.offset) &&
              r.asteroid.value.velocity ==
                Vectors.Rotate(trig, Scale(edge.direction, roll.speed as real), roll.deviation as real)
  {
    var timer := f.spawnTimer + dt;
    if timer > ASTEROID_SPAWN_RATE then
      var edge := Edges[roll.edge];
      var velocity := Scale(edge.direction, roll.speed as real);
      var velocity := Vectors.Rotate(trig, velocity, roll.deviation as real);
      var position := edge.place(roll.offset);
      var kind := roll.kind;
      Spawned(AsteroidField(0.0), Some(Spawn(ASTEROID_MIN_RADIUS * kind, position, velocity)))
    else
      Spawned(AsteroidField(timer), None)
  }

  /** With non-negative frame times the timer stays within [0, ASTEROID_SPAWN_RATE]. */
  lemma UpdateKeepsTimerBounded(f: AsteroidField, dt: real, roll: SpawnRoll, trig: Trig)
    requires 0.0 <= f.spawnTimer && 0.0 <= dt
    ensures 0.0 <= Update(f, dt, roll, trig).field.spawnTimer <= ASTEROID_SPAWN_RATE
  {
  }

  /** MARGIN pixels outside the screen on one axis and within the screen's
      span on the other. */
  predicate OffScreenStart(p: Vec2) {
    || ((p.x == -MARGIN || p.x == WIDTH + MARGIN) && 0.0 <= p.y <= HEIGHT)
    || ((p.y == -MARGIN || p.y == HEIGHT + MARGIN) && 0.0 <= p.x <= WIDTH)
  }

  /** Each edge starts the asteroid ASTEROID_MAX_RADIUS outside the screen on
      one axis and within the screen's span on the other, and its direction,
      followed for ASTEROID_MAX_RADIUS pixels, reaches the screen's border. */
  lemma EdgesStartOffScreen(e: EdgeIndex, t: real)
    requires 0.0 <= t <= 1.0
    ensures OffScreenStart(Edges[e].place(t))
    ensures var p := Add(Edges[e].place(t), Scale(Edges[e].direction, MARGIN));
      0.0 <= p.x <= WIDTH && 0.0 <= p.y <= HEIGHT
  {
  }

  /** A spawned asteroid has radius 20 * kind, never above
      ASTEROID_MAX_RADIUS, starts off screen, and moves at its drawn speed. */
  lemma SpawnedAsteroidShape(f: AsteroidField, dt: real, roll: SpawnRoll, trig: Trig)
    requires ValidRoll(roll) && ValidTrig(trig)
    requires f.spawnTimer + dt > ASTEROID_SPAWN_RATE
    ensures var a := Update(f, dt, roll, trig).asteroid.value;
      (a.radius == 20 || a.radius == 40 || a.radius == 60) && a.radius <= ASTEROID_MAX_RADIUS &&
      LengthSq(a.velocity) == (roll.speed * roll.speed) as real &&
      1600.0 <= LengthSq(a.velocity) <= 10000.0 &&
      OffScreenStart(a.position)
  {
    var edge := Edges[roll.edge];
    var speed := roll.speed as real;
    var base := Scale(edge.direction, speed);
    assert LengthSq(edge.direction) == 1.0;
    assert LengthSq(base) == speed * speed by {
      assert LengthSq(base) == LengthSq(edge.direction) * (speed * speed);
    }
    assert 1600.0 <= speed * speed <= 10000.0 by {
      assert 40.0 * 40.0 <= 40.0 * speed <= speed * speed;
      assert speed * speed <= 100.0 * speed <= 100.0 * 100.0;
    }
    RotateKeepsLength(trig, base, roll.deviation as real);
    EdgesStartOffScreen(roll.edge, roll.offset);
  }

  /** The total of a sequence of frame times. */
  function Sum(dts: seq<real>): (t: real)
    ensures (forall i :: 0 <= i < |dts| ==> 0.0 <= dts[i]) ==> 0.0 <= t
  {
    if dts == [] then 0.0 else dts[0] + Sum(dts[1..])
  }

  /** Run the field through a sequence of frame times, the i-th frame with
      the spawn draws rolls[i]: the field at the end and the number of
      asteroids spawned on the way. */
  function Accrue(f: AsteroidField, dts: seq<real>, rolls: seq<SpawnRoll>, trig: Trig): (r: (AsteroidField, nat))
    requires |rolls| == |dts|
    ensures r.1 <= |dts|
    decreases |dts|
  {
    if dts == [] then (f, 0)
    else
      var step := Update(f, dts[0], rolls[0], trig);
      var rest := Accrue(step.field, dts[1..], rolls[1..], trig);
      (rest.0, rest.1 + (if step.asteroid.Some? then 1 else 0))
  }

  /** The spawn rate: each spawn uses up more than ASTEROID_SPAWN_RATE
      seconds of frame time, so n spawns need more than n * 0.8 seconds. */
  lemma {:induction false} SpawnRateBounded(f: AsteroidField, dts: seq<real>, rolls: seq<SpawnRoll>, trig: Trig)
    requires |rolls| == |dts|
    ensures var r := Accrue(f, dts, rolls, trig);
      ASTEROID_SPAWN_RATE * (r.1 as real) + r.0.spawnTimer <= f.spawnTimer + Sum(dts)
    ensures var r := Accrue(f, dts, rolls, trig);
      r.1 > 0 ==> ASTEROID_SPAWN_RATE * (r.1 as real) + r.0.spawnTimer < f.spawnTimer + Sum(dts)
    decreases |dts|
  {
    if dts != [] {
      var step := Update(f, dts[0], rolls[0], trig);
      SpawnRateBounded(step.field, dts[1..], rolls[1..], trig);
    }
  }
}
