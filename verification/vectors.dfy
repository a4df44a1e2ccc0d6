/** The part of pygame.Vector2 the game relies on, over exact reals:
    addition, scaling, squared length and distance, and rotation. */
module Vectors {

  datatype Vec2 = Vec2(x: real, y: real)

  function Add(a: Vec2, b: Vec2): (r: Vec2) {
    Vec2(a.x + b.x, a.y + b.y)
  }

  function Scale(v: Vec2, k: real): (r: Vec2) {
    Vec2(v.x * k, v.y * k)
  }

  function LengthSq(v: Vec2): (r: real) {
    v.x * v.x + v.y * v.y
  }

  /** The square of Vector2.distance_to. */
  function DistanceSq(a: Vec2, b: Vec2): (r: real) {
    LengthSq(Vec2(a.x - b.x, a.y - b.y))
  }

  /** A trigonometry oracle: the pair (cos d, sin d) for an angle of d degrees. */
  type Trig = real -> Vec2

  /** At one angle the oracle lies on the unit circle and is odd in its sine. */
  predicate TrigAt(trig: Trig, deg: real) {
    LengthSq(trig(deg)) == 1.0 && trig(-deg) == Vec2(trig(deg).x, -trig(deg).y)
  }

  /** What the proofs assume of the oracle standing in for cos and sin. */
  ghost predicate ValidTrig(trig: Trig) {
    trig(0.0) == Vec2(1.0, 0.0) && forall deg :: TrigAt(trig, deg)
  }

  /** Vector2.rotate: counter-clockwise rotation by deg degrees. Whenever
      the oracle's pair lies on the unit circle the rotation keeps length,
      and the pair (1, 0) leaves the vector as it is. */
  function Rotate(trig: Trig, v: Vec2, deg: real): (r: Vec2)
    ensures LengthSq(trig(deg)) == 1.0 ==> LengthSq(r) == LengthSq(v)
    ensures trig(deg) == Vec2(1.0, 0.0) ==> r == v
  {
    var cs := trig(deg);
    UnitRotation(v.x, v.y, cs.x, cs.y);
    Vec2(v.x * cs.x - v.y * cs.y, v.x * cs.y + v.y * cs.x)
  }

  /** A rotation matrix built from a point of the unit circle keeps length. */
  lemma UnitRotation(x: real, y: real, c: real, s: real)
    ensures c * c + s * s == 1.0 ==>
      (x * c - y * s) * (x * c - y * s) + (x * s + y * c) * (x * s + y * c) == x * x + y * y
  {
    calc {
      (x * c - y * s) * (x * c - y * s) + (x * s + y * c) * (x * s + y * c);
      (x * x + y * y) * (c * c + s * s);
    }
  }

  lemma RotateByZero(trig: Trig, v: Vec2)
    requires ValidTrig(trig)
    ensures Rotate(trig, v, 0.0) == v
  {
  }

  lemma RotateKeepsLength(trig: Trig, v: Vec2, deg: real)
    requires ValidTrig(trig)
    ensures LengthSq(Rotate(trig, v, deg)) == LengthSq(v)
  {
    assert TrigAt(trig, deg);
  }

  /** Rotating by +d and by -d gives two vectors symmetric about the original. */
  lemma RotateMirror(trig: Trig, v: Vec2, deg: real)
    requires ValidTrig(trig)
    ensures Add(Rotate(trig, v, deg), Rotate(trig, v, -deg)) == Scale(v, 2.0 * trig(deg).x)
  {
    assert TrigAt(trig, deg);
  }
}
