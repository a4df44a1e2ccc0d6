/** Shot (shot.py): a small circle flying in a straight line. */
module Shots {
  import opened Vectors
  import opened Constants
  import opened Shapes

  /** Shot.__init__, whose radius defaults to SHOT_RADIUS. */
  function NewShot(x: real, y: real, radius: int := SHOT_RADIUS): (s: Circle)
    ensures s.position == Vec2(x, y) && s.velocity == Vec2(0.0, 0.0) && s.radius == radius
  {
    NewCircle(x, y, radius)
  }

  lemma DefaultShotRadius(x: real, y: real)
    ensures NewShot(x, y).radius == 5
  {
  }

  /** Shot.update: straight-line motion; a shot never expires by itself. */
  function Update(s: Circle, dt: real): (r: Circle)
    ensures r.velocity == s.velocity && r.radius == s.radius
    ensures r.position == Add(s.position, Scale(s.velocity, dt))
  {
    Drift(s, dt)
  }

  /** Two updates with dt1 and dt2 are one update with dt1 + dt2. */
  lemma UpdateComposes(s: Circle, dt1: real, dt2: real)
    ensures Update(Update(s, dt1), dt2) == Update(s, dt1 + dt2)
  {
    DriftComposes(s, dt1, dt2);
  }
}
