/** CircleShape (circleshape.py): the circle every game entity is, its
    motion, and the overlap test the collision pass uses. */
module Shapes {
  import opened Vectors

  /** A centre, a velocity in pixels per second and an integer radius. */
  datatype Circle = Circle(position: Vec2, velocity: Vec2, radius: int)

  /** CircleShape.__init__: a circle at rest centred on (x, y). */
  function NewCircle(x: real, y: real, radius: int): (c: Circle)
    ensures c.position == Vec2(x, y) && c.velocity == Vec2(0.0, 0.0)
    ensures c.radius == radius
  {
    Circle(Vec2(x, y), Vec2(0.0, 0.0), radius)
  }

  /** The base CircleShape.update, which does nothing. */
  function BaseUpdate(c: Circle, dt: real): (r: Circle)
    ensures r.position == c.position && r.velocity == c.velocity && r.radius == c.radius
  {
    c
  }

  /** position += velocity * dt, the motion Asteroid.update and Shot.update
      share: velocity and radius are kept, and backing up along the velocity
      for the same time returns to the starting centre. */
  function Drift(c: Circle, dt: real): (r: Circle)
    ensures r.velocity == c.velocity && r.radius == c.radius
    ensures Add(r.position, Scale(c.velocity, -dt)) == c.position
  {
    c.(position := Add(c.position, Scale(c.velocity, dt)))
  }

  /** Drifting for dt1 and then dt2 is drifting once for dt1 + dt2. */
  lemma DriftComposes(c: Circle, dt1: real, dt2: real)
    ensures Drift(Drift(c, dt1), dt2) == Drift(c, dt1 + dt2)
  {
  }

  /** Drifting keeps velocity and radius, and the circle stays put exactly
      when it is at rest or no time passes: then it agrees with the base update. */
  lemma DriftStaysPutIff(c: Circle, dt: real)
    ensures Drift(c, dt).velocity == c.velocity && Drift(c, dt).radius == c.radius
    ensures Drift(c, dt) == BaseUpdate(c, dt) <==> dt == 0.0 || c.velocity == Vec2(0.0, 0.0)
  {
    if Drift(c, dt) == c && dt != 0.0 {
      assert c.velocity.x * dt == 0.0 && c.velocity.y * dt == 0.0;
      assert c.velocity.x == 0.0 && c.velocity.y == 0.0;
    }
  }

  /** A freshly made shape does not move until it is given a velocity. */
  lemma NewCircleAtRest(x: real, y: real, radius: int, dt: real)
    ensures Drift(NewCircle(x, y, radius), dt) == NewCircle(x, y, radius)
  {
  }

  /** CircleShape.does_collide, with the distance compared through its square:
      the centres are closer than the sum of the radii. */
  predicate Collides(a: Circle, b: Circle) {
    var reach := (a.radius + b.radius) as real;
    0.0 < reach && DistanceSq(a.position, b.position) < reach * reach
  }

  /** For the true distance d between the centres, the overlap test holds
      exactly when d is strictly below the sum of the radii. */
  lemma CollidesIffCloser(a: Circle, b: Circle, d: real)
    requires 0.0 <= d && d * d == DistanceSq(a.position, b.position)
    ensures Collides(a, b) <==> d < (a.radius + b.radius) as real
  {
    var reach := (a.radius + b.radius) as real;
    if d < reach {
      if d == 0.0 {
        PositiveSquare(reach);
      } else {
        SquareBelow(d, reach);
      }
    } else {
      SquareOrder(d, reach);
    }
  }

  lemma PositiveSquare(y: real)
    requires 0.0 < y
    ensures 0.0 < y * y
  {
  }

  lemma SquareBelow(x: real, y: real)
    requires 0.0 < x < y
    ensures x * x < y * y
  {
  }

  /** Comparing squares of non-negative reals compares the reals. */
  lemma SquareOrder(x: real, y: real)
    requires 0.0 <= x
    ensures 0.0 <= y && x * x < y * y ==> x < y
  {
  }

  /** Circles that exactly touch do not collide. */
  lemma TouchingDoNotCollide(a: Circle, b: Circle)
    requires 0 <= a.radius + b.radius
    requires DistanceSq(a.position, b.position) == ((a.radius + b.radius) * (a.radius + b.radius)) as real
    ensures !Collides(a, b)
  {
  }

  lemma CollidesSymmetric(a: Circle, b: Circle)
    ensures Collides(a, b) <==> Collides(b, a)
  {
    assert DistanceSq(a.position, b.position) == DistanceSq(b.position, a.position);
  }

  /** Two circles with one centre collide exactly when their radii sum to a
      positive number, so a radius-0 circle still collides with the player. */
  lemma ConcentricCollide(a: Circle, b: Circle)
    requires a.position == b.position
    ensures Collides(a, b) <==> a.radius + b.radius > 0
  {
  }

  /** Growing one circle about its own centre never undoes a collision. */
  lemma CollidesMonotone(a: Circle, b: Circle, bigger: Circle)
    requires bigger.position == b.position && b.radius <= bigger.radius
    ensures Collides(a, b) ==> Collides(a, bigger)
  {
    var reach := (a.radius + b.radius) as real;
    var reach' := (a.radius + bigger.radius) as real;
    if Collides(a, b) {
      assert reach * reach <= reach' * reach;
      assert reach' * reach <= reach' * reach';
    }
  }
}
