/** Asteroid (asteroid.py): drifting motion and the split rule. */
module Asteroids {
  import opened Vectors
  import opened Constants
  import opened Shapes

  /** Asteroid.update: the asteroid drifts by its velocity for dt seconds. */
  function Update(a: Circle, dt: real): (r: Circle)
    ensures r.velocity == a.velocity && r.radius == a.radius
    ensures r.position == Add(a.position, Scale(a.velocity, dt))
  {
    Drift(a, dt)
  }

  /** Asteroid.split: the asteroids that replace a hit one. The hit asteroid
      itself is always removed (by the caller, which owns the groups); an
      asteroid of radius below ASTEROID_MIN_RADIUS leaves nothing, any other
      leaves two children at its centre, ASTEROID_MIN_RADIUS smaller, whose
      velocities are its own turned by +theta and by -theta degrees. */
  function Split(a: Circle, theta: real, trig: Trig): (children: seq<Circle>)
    ensures a.radius < ASTEROID_MIN_RADIUS <==> children == []
    ensures a.radius >= ASTEROID_MIN_RADIUS ==> |children| == 2
  {
    if a.radius < ASTEROID_MIN_RADIUS then
      []
    else
      var radius := a.radius - ASTEROID_MIN_RADIUS;
      var first := NewCircle(a.position.x, a.position.y, radius);
      var second := NewCircle(a.position.x, a.position.y, radius);
      [first.(velocity := Vectors.Rotate(trig, a.velocity, theta)),
       second.(velocity := Vectors.Rotate(trig, a.velocity, -theta))]
  }

  /** Each child sits at the parent's centre, ASTEROID_MIN_RADIUS smaller;
      the first turns the parent's velocity by +theta, the second by -theta. */
  lemma SplitChildren(a: Circle, theta: real, trig: Trig)
    ensures forall c :: c in Split(a, theta, trig) ==>
              c.position == a.position && c.radius == a.radius - ASTEROID_MIN_RADIUS
    ensures a.radius >= ASTEROID_MIN_RADIUS ==>
              Split(a, theta, trig)[0].velocity == Vectors.Rotate(trig, a.velocity, theta) &&
              Split(a, theta, trig)[1].velocity == Vectors.Rotate(trig, a.velocity, -theta)
  {
  }

  /** The boundary the code draws with a strict comparison: an asteroid of
      exactly ASTEROID_MIN_RADIUS still splits, into two radius-0 asteroids. */
  lemma SplitAtMinimumRadius(a: Circle, theta: real, trig: Trig)
    requires a.radius == ASTEROID_MIN_RADIUS
    ensures |Split(a, theta, trig)| == 2
    ensures Split(a, theta, trig)[0].radius == 0 && Split(a, theta, trig)[1].radius == 0
  {
  }

  /** The children fly off symmetrically about the parent's heading. */
  lemma SplitChildrenMirrored(a: Circle, theta: real, trig: Trig)
    requires ValidTrig(trig) && a.radius >= ASTEROID_MIN_RADIUS
    ensures var children := Split(a, theta, trig);
      Add(children[0].velocity, children[1].velocity) == Scale(a.velocity, 2.0 * trig(theta).x)
  {
    RotateMirror(trig, a.velocity, theta);
  }

  /** Each child moves at the parent's speed. */
  lemma SplitChildrenKeepSpeed(a: Circle, theta: real, trig: Trig)
    requires ValidTrig(trig)
    ensures forall c :: c in Split(a, theta, trig) ==> LengthSq(c.velocity) == LengthSq(a.velocity)
  {
    if a.radius >= ASTEROID_MIN_RADIUS {
      RotateKeepsLength(trig, a.velocity, theta);
      RotateKeepsLength(trig, a.velocity, -theta);
    }
  }

  /** The radii an asteroid can have once spawned: 20 * kind, less whole
      steps of ASTEROID_MIN_RADIUS. */
  predicate RadiusOk(r: int) {
    0 <= r <= ASTEROID_MAX_RADIUS && r % ASTEROID_MIN_RADIUS == 0
  }

  lemma SplitKeepsRadiusOk(a: Circle, theta: real, trig: Trig)
    requires RadiusOk(a.radius)
    ensures forall c :: c in Split(a, theta, trig) ==> RadiusOk(c.radius)
  {
  }

  /** The split rule as asteroid.py's docstring states it: an asteroid at or
      below the minimum radius is destroyed outright. */
  function SplitAsDocumented(a: Circle, theta: real, trig: Trig): (children: seq<Circle>)
    ensures a.radius <= ASTEROID_MIN_RADIUS <==> children == []
  {
    if a.radius <= ASTEROID_MIN_RADIUS then [] else Split(a, theta, trig)
  }

  /** The code and its docstring disagree on exactly one radius. */
  lemma SplitDiffersFromDocumentation(a: Circle, theta: real, trig: Trig)
    ensures Split(a, theta, trig) != SplitAsDocumented(a, theta, trig) <==>
            a.radius == ASTEROID_MIN_RADIUS
  {
  }

  function Pow2(n: nat): (p: nat)
    ensures p > n
  {
    if n == 0 then 1 else 2 * Pow2(n - 1)
  }

  /** How many hits clear an asteroid of radius r together with every
      fragment it splits into, following the split rule's radii. */
  function HitsToClear(r: int): (n: nat)
    ensures n >= 1
    decreases r
  {
    if r < ASTEROID_MIN_RADIUS then 1 else 1 + 2 * HitsToClear(r - ASTEROID_MIN_RADIUS)
  }

  /** One hit plus clearing what the split leaves behind. */
  lemma HitsToClearSplit(a: Circle, theta: real, trig: Trig)
    ensures HitsToClear(a.radius) == 1 + TotalHits(Split(a, theta, trig))
  {
    var children := Split(a, theta, trig);
    if a.radius >= ASTEROID_MIN_RADIUS {
      assert children[1..][1..] == [];
      assert TotalHits(children[1..]) == HitsToClear(children[1].radius);
      assert TotalHits(children) == 2 * HitsToClear(a.radius - ASTEROID_MIN_RADIUS);
    }
  }

  /** An asteroid of radius 20 * k needs 2^(k+1) - 1 hits to clear. */
  lemma {:induction false} HitsToClearClosedForm(k: nat)
    ensures HitsToClear(ASTEROID_MIN_RADIUS * k) == Pow2(k + 1) - 1
  {
    if k > 0 {
      HitsToClearClosedForm(k - 1);
      assert ASTEROID_MIN_RADIUS * k - ASTEROID_MIN_RADIUS == ASTEROID_MIN_RADIUS * (k - 1);
    }
  }

  /** The hits that clear every pending asteroid and all its fragments. */
  function TotalHits(pending: seq<Circle>): (n: nat)
    ensures n >= |pending|
  {
    if pending == [] then 0 else HitsToClear(pending[0].radius) + TotalHits(pending[1..])
  }

  lemma {:induction false} TotalHitsAppend(xs: seq<Circle>, ys: seq<Circle>)
    ensures TotalHits(xs + ys) == TotalHits(xs) + TotalHits(ys)
  {
    if xs == [] {
      assert xs + ys == ys;
    } else {
      assert (xs + ys)[1..] == xs[1..] + ys;
      TotalHitsAppend(xs[1..], ys);
    }
  }

  /** Shoot an asteroid and then every fragment it leaves until none is left,
      the i-th hit splitting with angle angles(i); returns the number of hits. */
  method ClearByShooting(a: Circle, angles: nat -> real, trig: Trig) returns (hits: nat)
    ensures hits == HitsToClear(a.radius)
    ensures a.radius >= 0 && a.radius % ASTEROID_MIN_RADIUS == 0 ==>
              hits == Pow2(a.radius / ASTEROID_MIN_RADIUS + 1) - 1
  {
    var pending := [a];
    hits := 0;
    assert TotalHits(pending) == HitsToClear(a.radius) by {
      assert pending[1..] == [];
    }
    while pending != []
      invariant hits + TotalHits(pending) == HitsToClear(a.radius)
      decreases TotalHits(pending)
    {
      var children := Split(pending[0], angles(hits), trig);
      HitsToClearSplit(pending[0], angles(hits), trig);
      TotalHitsAppend(pending[1..], children);
      pending := pending[1..] + children;
      hits := hits + 1;
    }
    if a.radius >= 0 && a.radius % ASTEROID_MIN_RADIUS == 0 {
      var k := a.radius / ASTEROID_MIN_RADIUS;
      HitsToClearClosedForm(k);
    }
  }
}
