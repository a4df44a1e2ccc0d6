/** The collision pass of the main loop (main.py, lines 93-100).

    The pass walks a snapshot of the asteroid group taken when it starts, so
    asteroids split off during the pass are not examined in that frame. For
    each asteroid it first tests the player, then walks a snapshot of the shot
    group taken afresh for that asteroid, so a shot removed while handling an
    earlier asteroid is not seen again. There is no `break`: every live shot
    overlapping the asteroid is removed and splits it once more. These are
    pygame's Group iteration semantics (iteration over a copied list, `kill`
    removing a sprite from every group), which are not part of this model.

    The pass is modelled in two halves: Pass decides, per snapshot asteroid,
    how many shots hit it and which shots survive; Children then builds the
    asteroids the splits leave, in the order the source creates them. */
module Collisions {
  import opened Vectors
  import opened Constants
  import opened Shapes
  import Asteroids

  /** The inner loop for one asteroid: how many live shots hit it and the
      shots left alive, in group order. */
  datatype Volley = Volley(hits: nat, remaining: seq<Circle>)

  /** Test one asteroid against each live shot in group order, removing every
      shot that overlaps it. */
  function ShotsAgainst(a: Circle, shots: seq<Circle>): (v: Volley)
    ensures |v.remaining| + v.hits == |shots|
    decreases |shots|
  {
    if shots == [] then
      Volley(0, [])
    else if Collides(a, shots[0]) then
      var rest := ShotsAgainst(a, shots[1..]);
      Volley(rest.hits + 1, rest.remaining)
    else
      var rest := ShotsAgainst(a, shots[1..]);
      Volley(rest.hits, [shots[0]] + rest.remaining)
  }

  /** Every live shot overlapping the asteroid is removed, and only those;
      the asteroid is hit at all exactly when some live shot overlaps it. */
  lemma {:induction false} ShotsAgainstRemovesOverlapping(a: Circle, shots: seq<Circle>)
    ensures var v := ShotsAgainst(a, shots);
      (forall s :: s in v.remaining <==> s in shots && !Collides(a, s)) &&
      (v.hits == 0 <==> forall s :: s in shots ==> !Collides(a, s))
    decreases |shots|
  {
    if shots != [] {
      ShotsAgainstRemovesOverlapping(a, shots[1..]);
      assert shots == [shots[0]] + shots[1..];
    }
  }

  /** The same with multiplicity: of each shot value, every copy overlapping
      the asteroid is removed and every other copy is kept. */
  lemma {:induction false} ShotsAgainstMultiset(a: Circle, shots: seq<Circle>)
    ensures forall s :: multiset(ShotsAgainst(a, shots).remaining)[s] ==
                          if Collides(a, s) then 0 else multiset(shots)[s]
    decreases |shots|
  {
    if shots != [] {
      ShotsAgainstMultiset(a, shots[1..]);
      assert shots == [shots[0]] + shots[1..];
    }
  }

  /** The outcome of the pass: the player was hit (the source calls exit()),
      or, per snapshot asteroid, how many shots split it, together with the
      shots still alive. */
  datatype Outcome = PlayerHit | Cleared(hits: seq<nat>, shots: seq<Circle>)

  /** The collision pass over the asteroid snapshot, in group order: per
      asteroid, the player test and then the volley against the shots still
      alive. The properties of the pass are the lemmas below. */
  function Pass(asteroids: seq<Circle>, player: Circle, shots: seq<Circle>): (r: Outcome)
    ensures r.Cleared? ==> |r.hits| == |asteroids| && |r.shots| <= |shots|
    decreases |asteroids|
  {
    if asteroids == [] then
      Cleared([], shots)
    else if Collides(asteroids[0], player) then
      PlayerHit
    else
      var v := ShotsAgainst(asteroids[0], shots);
      var rest := Pass(asteroids[1..], player, v.remaining);
      if rest.PlayerHit? then PlayerHit else Cleared([v.hits] + rest.hits, rest.shots)
  }

  /** How a cleared pass is made of its first asteroid's volley and the rest. */
  lemma PassClearedStep(asteroids: seq<Circle>, player: Circle, shots: seq<Circle>)
    requires asteroids != [] && Pass(asteroids, player, shots).Cleared?
    ensures var v := ShotsAgainst(asteroids[0], shots);
      var rest := Pass(asteroids[1..], player, v.remaining);
      var r := Pass(asteroids, player, shots);
      !Collides(asteroids[0], player) && rest.Cleared? &&
      r.hits == [v.hits] + rest.hits && r.shots == rest.shots
  {
  }

  /** The game ends exactly when some snapshot asteroid overlaps the player:
      the player test precedes each asteroid's shot tests, so no shot saves
      the player, and children made during the pass are not examined. */
  lemma {:induction false} PassEndsGameIff(asteroids: seq<Circle>, player: Circle, shots: seq<Circle>)
    ensures Pass(asteroids, player, shots).PlayerHit? <==>
              exists a :: a in asteroids && Collides(a, player)
    decreases |asteroids|
  {
    if asteroids != [] {
      var v := ShotsAgainst(asteroids[0], shots);
      PassEndsGameIff(asteroids[1..], player, v.remaining);
      assert asteroids == [asteroids[0]] + asteroids[1..];
    }
  }

  /** No asteroid of the sequence overlaps the shot. */
  predicate Untouched(asteroids: seq<Circle>, s: Circle) {
    forall a :: a in asteroids ==> !Collides(a, s)
  }

  /** The two halves of a shot's survival: past the first asteroid and past
      the rest. */
  lemma SurvivesBoth(asteroids: seq<Circle>, shots: seq<Circle>, remaining: seq<Circle>, final: seq<Circle>)
    requires asteroids != []
    requires forall s :: s in remaining <==> s in shots && !Collides(asteroids[0], s)
    requires forall s :: s in final <==> s in remaining && Untouched(asteroids[1..], s)
    ensures forall s :: s in final <==> s in shots && Untouched(asteroids, s)
  {
    assert asteroids == [asteroids[0]] + asteroids[1..];
  }

  /** A shot survives the pass exactly when it overlaps no snapshot asteroid:
      each overlapping shot is removed by the first asteroid it overlaps. */
  lemma {:induction false} PassShotsSurviveIff(asteroids: seq<Circle>, player: Circle, shots: seq<Circle>)
    requires Pass(asteroids, player, shots).Cleared?
    ensures forall s :: s in Pass(asteroids, player, shots).shots <==> s in shots && Untouched(asteroids, s)
    decreases |asteroids|
  {
    if asteroids != [] {
      var v := ShotsAgainst(asteroids[0], shots);
      var rest := Pass(asteroids[1..], player, v.remaining);
      PassClearedStep(asteroids, player, shots);
      PassShotsSurviveIff(asteroids[1..], player, v.remaining);
      ShotsAgainstRemovesOverlapping(asteroids[0], shots);
      SurvivesBoth(asteroids, shots, v.remaining, rest.shots);
    }
  }

  /** The i-th asteroid is the first, in group order, that the shot overlaps. */
  predicate FirstHit(asteroids: seq<Circle>, s: Circle, i: int)
    requires 0 <= i < |asteroids|
  {
    Collides(asteroids[i], s) && Untouched(asteroids[..i], s)
  }

  /** Dropping the first asteroid and the shots it removed shifts first hits by one. */
  lemma FirstHitShift(asteroids: seq<Circle>, shots: seq<Circle>, i: int)
    requires 0 < i < |asteroids|
    ensures var remaining := ShotsAgainst(asteroids[0], shots).remaining;
      (forall s :: s in shots ==> !FirstHit(asteroids, s, i)) <==>
      (forall s :: s in remaining ==> !FirstHit(asteroids[1..], s, i - 1))
  {
    var remaining := ShotsAgainst(asteroids[0], shots).remaining;
    ShotsAgainstRemovesOverlapping(asteroids[0], shots);
    var tail := asteroids[1..];
    assert asteroids[..i] == [asteroids[0]] + tail[..i - 1];
    assert tail[i - 1] == asteroids[i];
    if forall s :: s in remaining ==> !FirstHit(tail, s, i - 1) {
      forall s | s in shots
        ensures !FirstHit(asteroids, s, i)
      {
        if !Collides(asteroids[0], s) {
          assert s in remaining;
        }
      }
    } else {
      var s :| s in remaining && FirstHit(tail, s, i - 1);
      assert s in shots && FirstHit(asteroids, s, i);
    }
  }

  /** The first asteroid is hit exactly when some shot has it as its first. */
  lemma FirstAsteroidHit(asteroids: seq<Circle>, shots: seq<Circle>)
    requires asteroids != []
    ensures ShotsAgainst(asteroids[0], shots).hits == 0 <==>
              forall s :: s in shots ==> !FirstHit(asteroids, s, 0)
  {
    ShotsAgainstRemovesOverlapping(asteroids[0], shots);
    assert asteroids[..0] == [];
  }

  /** A snapshot asteroid is split in the pass exactly when some shot has it
      as the first asteroid, in group order, that it overlaps: a shot removed
      by an earlier asteroid can no longer split a later one. */
  lemma {:induction false} HitIffFirstHit(asteroids: seq<Circle>, player: Circle, shots: seq<Circle>, i: int)
    requires Pass(asteroids, player, shots).Cleared? && 0 <= i < |asteroids|
    ensures Pass(asteroids, player, shots).hits[i] == 0 <==>
              forall s :: s in shots ==> !FirstHit(asteroids, s, i)
    decreases |asteroids|
  {
    var v := ShotsAgainst(asteroids[0], shots);
    PassClearedStep(asteroids, player, shots);
    if i == 0 {
      FirstAsteroidHit(asteroids, shots);
    } else {
      HitIffFirstHit(asteroids[1..], player, v.remaining, i - 1);
      FirstHitShift(asteroids, shots, i);
    }
  }

  /** How many of the shots, counted with multiplicity, have the i-th
      asteroid as the first they overlap. */
  function CountFirstHits(asteroids: seq<Circle>, shots: seq<Circle>, i: int): (n: nat)
    requires 0 <= i < |asteroids|
    ensures n <= |shots|
    decreases |shots|
  {
    if shots == [] then 0
    else (if FirstHit(asteroids, shots[0], i) then 1 else 0) + CountFirstHits(asteroids, shots[1..], i)
  }

  /** The first asteroid's volley removes exactly the shots that have it first. */
  lemma {:induction false} VolleyCountsFirst(asteroids: seq<Circle>, shots: seq<Circle>)
    requires asteroids != []
    ensures ShotsAgainst(asteroids[0], shots).hits == CountFirstHits(asteroids, shots, 0)
    decreases |shots|
  {
    assert asteroids[..0] == [];
    if shots != [] {
      VolleyCountsFirst(asteroids, shots[1..]);
    }
  }

  /** A shot the first asteroid removes has no later first hit; one it keeps
      has the same first hit among the remaining asteroids, one place down. */
  lemma {:induction false} CountFirstHitsShift(asteroids: seq<Circle>, shots: seq<Circle>, i: int)
    requires 0 < i < |asteroids|
    ensures CountFirstHits(asteroids[1..], ShotsAgainst(asteroids[0], shots).remaining, i - 1) ==
            CountFirstHits(asteroids, shots, i)
    decreases |shots|
  {
    if shots != [] {
      var s := shots[0];
      var tail := asteroids[1..];
      var rest := ShotsAgainst(asteroids[0], shots[1..]);
      CountFirstHitsShift(asteroids, shots[1..], i);
      assert asteroids[..i] == [asteroids[0]] + tail[..i - 1];
      assert tail[i - 1] == asteroids[i];
      if Collides(asteroids[0], s) {
        assert asteroids[0] in asteroids[..i];
        assert !FirstHit(asteroids, s, i);
      } else {
        assert FirstHit(tail, s, i - 1) == FirstHit(asteroids, s, i);
        assert ([s] + rest.remaining)[1..] == rest.remaining;
      }
    }
  }

  /** No `break`: the i-th snapshot asteroid is split once for every shot,
      counted with multiplicity, whose first overlapping asteroid it is. */
  lemma {:induction false} PassHitCount(asteroids: seq<Circle>, player: Circle, shots: seq<Circle>, i: int)
    requires Pass(asteroids, player, shots).Cleared? && 0 <= i < |asteroids|
    ensures Pass(asteroids, player, shots).hits[i] == CountFirstHits(asteroids, shots, i)
    decreases |asteroids|
  {
    var v := ShotsAgainst(asteroids[0], shots);
    PassClearedStep(asteroids, player, shots);
    if i == 0 {
      VolleyCountsFirst(asteroids, shots);
    } else {
      PassHitCount(asteroids[1..], player, v.remaining, i - 1);
      CountFirstHitsShift(asteroids, shots, i);
    }
  }

  /** One shot overlapping two asteroids splits only the first of them. */
  lemma SharedShotSplitsOnlyFirst(first: Circle, second: Circle, player: Circle, s: Circle)
    requires !Collides(first, player) && !Collides(second, player)
    requires Collides(first, s) && Collides(second, s)
    ensures Pass([first, second], player, [s]) == Cleared([1, 0], [])
  {
    assert [s][1..] == [];
    assert ShotsAgainst(first, [s]) == Volley(1, []);
    assert [first, second][1..] == [second];
    assert [second][1..] == [];
    assert Pass([second], player, []) == Cleared([0], []);
  }

  /** No `break`: two shots overlapping one asteroid split it twice. */
  lemma TwoShotsSplitTwice(a: Circle, player: Circle, s1: Circle, s2: Circle)
    requires !Collides(a, player) && Collides(a, s1) && Collides(a, s2)
    ensures Pass([a], player, [s1, s2]) == Cleared([2], [])
  {
    assert [s1, s2][1..] == [s2];
    assert [s2][1..] == [];
    assert ShotsAgainst(a, [s1, s2]) == Volley(2, []);
    assert [a][1..] == [];
  }

  /** The number of snapshot asteroids hit at least once. */
  function HitCount(hits: seq<nat>): (n: nat)
    ensures n <= |hits|
    decreases |hits|
  {
    if hits == [] then 0 else (if hits[0] == 0 then 0 else 1) + HitCount(hits[1..])
  }

  /** The snapshot asteroids no shot hit, in group order: one fewer for
      every asteroid hit. */
  function Survivors(asteroids: seq<Circle>, hits: seq<nat>): (r: seq<Circle>)
    requires |hits| == |asteroids|
    ensures |r| + HitCount(hits) == |asteroids|
    decreases |asteroids|
  {
    if asteroids == [] then []
    else (if hits[0] == 0 then [asteroids[0]] else []) + Survivors(asteroids[1..], hits[1..])
  }

  /** The survivors are exactly the asteroids whose hit count is 0. */
  lemma {:induction false} SurvivorsMembers(asteroids: seq<Circle>, hits: seq<nat>, a: Circle)
    requires |hits| == |asteroids|
    ensures a in Survivors(asteroids, hits) <==>
              exists i :: 0 <= i < |asteroids| && hits[i] == 0 && asteroids[i] == a
    decreases |asteroids|
  {
    if asteroids != [] {
      SurvivorsMembers(asteroids[1..], hits[1..], a);
      if exists i :: 0 <= i < |asteroids| && hits[i] == 0 && asteroids[i] == a {
        var i :| 0 <= i < |asteroids| && hits[i] == 0 && asteroids[i] == a;
        if i > 0 {
          assert hits[1..][i - 1] == 0 && asteroids[1..][i - 1] == a;
        }
      }
      if a in Survivors(asteroids[1..], hits[1..]) {
        var i :| 0 <= i < |asteroids| - 1 && hits[1..][i] == 0 && asteroids[1..][i] == a;
        assert hits[i + 1] == 0 && asteroids[i + 1] == a;
      }
    }
  }

  /** The survivors are drawn from the snapshot, counted with multiplicity. */
  lemma {:induction false} SurvivorsSubMultiset(asteroids: seq<Circle>, hits: seq<nat>)
    requires |hits| == |asteroids|
    ensures multiset(Survivors(asteroids, hits)) <= multiset(asteroids)
    decreases |asteroids|
  {
    if asteroids != [] {
      SurvivorsSubMultiset(asteroids[1..], hits[1..]);
      assert asteroids == [asteroids[0]] + asteroids[1..];
    }
  }

  /** A hit asteroid is killed: the survivors hold fewer copies of it than
      the snapshot, even when other asteroids are equal to it. */
  lemma {:induction false} SurvivorsDropHit(asteroids: seq<Circle>, hits: seq<nat>, i: int)
    requires |hits| == |asteroids| && 0 <= i < |asteroids| && hits[i] > 0
    ensures multiset(Survivors(asteroids, hits))[asteroids[i]] < multiset(asteroids)[asteroids[i]]
    decreases |asteroids|
  {
    assert asteroids == [asteroids[0]] + asteroids[1..];
    if i == 0 {
      SurvivorsSubMultiset(asteroids[1..], hits[1..]);
    } else {
      SurvivorsDropHit(asteroids[1..], hits[1..], i - 1);
      assert asteroids[1..][i - 1] == asteroids[i];
    }
  }

  /** How many of the hit asteroids equal x: the copies of x the pass kills. */
  function HitCopies(asteroids: seq<Circle>, hits: seq<nat>, x: Circle): (n: nat)
    requires |hits| == |asteroids|
    ensures n <= |asteroids|
    decreases |asteroids|
  {
    if asteroids == [] then 0
    else (if hits[0] > 0 && asteroids[0] == x then 1 else 0) + HitCopies(asteroids[1..], hits[1..], x)
  }

  /** Counted with multiplicity, the survivors are the snapshot minus exactly
      one copy per hit asteroid, however many shots hit it. */
  lemma {:induction false} SurvivorsCount(asteroids: seq<Circle>, hits: seq<nat>)
    requires |hits| == |asteroids|
    ensures forall x :: multiset(Survivors(asteroids, hits))[x] + HitCopies(asteroids, hits, x) ==
                        multiset(asteroids)[x]
    decreases |asteroids|
  {
    if asteroids != [] {
      SurvivorsCount(asteroids[1..], hits[1..]);
      assert asteroids == [asteroids[0]] + asteroids[1..];
    }
  }

  /** The children of n successive splits of one asteroid, the j-th of them
      made with the angle angles(k + j). */
  function Splits(a: Circle, angles: nat -> real, k: nat, n: nat, trig: Trig): (r: seq<Circle>)
    ensures |r| == if a.radius < ASTEROID_MIN_RADIUS then 0 else 2 * n
    decreases n
  {
    if n == 0 then [] else Asteroids.Split(a, angles(k), trig) + Splits(a, angles, k + 1, n - 1, trig)
  }

  /** The circle is what splitting the parent leaves at its centre. */
  predicate ChildOf(c: Circle, parent: Circle) {
    parent.radius >= ASTEROID_MIN_RADIUS &&
    c.position == parent.position && c.radius == parent.radius - ASTEROID_MIN_RADIUS
  }

  /** Every child of repeated splits sits at the parent's centre,
      ASTEROID_MIN_RADIUS smaller. */
  lemma {:induction false} SplitsChildren(a: Circle, angles: nat -> real, k: nat, n: nat, trig: Trig)
    ensures forall c :: c in Splits(a, angles, k, n, trig) ==> ChildOf(c, a)
    decreases n
  {
    if n > 0 {
      Asteroids.SplitChildren(a, angles(k), trig);
      SplitsChildren(a, angles, k + 1, n - 1, trig);
    }
  }

  /** The asteroids the pass's splits create, in creation order: the snapshot
      asteroid's hits in group order, each split with the next angle of the
      frame, the first of them angles(k). */
  function Children(asteroids: seq<Circle>, hits: seq<nat>, angles: nat -> real, k: nat, trig: Trig): (r: seq<Circle>)
    requires |hits| == |asteroids|
    ensures |r| == 2 * SplittableHits(asteroids, hits)
    decreases |asteroids|
  {
    if asteroids == [] then []
    else Splits(asteroids[0], angles, k, hits[0], trig) +
         Children(asteroids[1..], hits[1..], angles, k + hits[0], trig)
  }

  /** A child made by splitting one of the asteroids. */
  predicate Descends(c: Circle, asteroids: seq<Circle>) {
    exists parent :: parent in asteroids && ChildOf(c, parent)
  }

  /** Every child the pass creates comes from splitting a snapshot asteroid of
      radius at least ASTEROID_MIN_RADIUS: it sits at that asteroid's centre
      and is ASTEROID_MIN_RADIUS smaller. */
  lemma {:induction false} ChildrenDescend(asteroids: seq<Circle>, hits: seq<nat>, angles: nat -> real,
                                           k: nat, trig: Trig)
    requires |hits| == |asteroids|
    ensures forall c :: c in Children(asteroids, hits, angles, k, trig) ==> Descends(c, asteroids)
    decreases |asteroids|
  {
    if asteroids != [] {
      var first := Splits(asteroids[0], angles, k, hits[0], trig);
      var later := Children(asteroids[1..], hits[1..], angles, k + hits[0], trig);
      SplitsChildren(asteroids[0], angles, k, hits[0], trig);
      ChildrenDescend(asteroids[1..], hits[1..], angles, k + hits[0], trig);
      forall c | c in first + later
        ensures Descends(c, asteroids)
      {
        if c in first {
          assert ChildOf(c, asteroids[0]);
        } else {
          var parent :| parent in asteroids[1..] && ChildOf(c, parent);
          assert parent in asteroids;
        }
      }
    }
  }

  /** The first of n > 0 splits and the rest. */
  lemma SplitsStep(a: Circle, angles: nat -> real, k: nat, n: nat, trig: Trig)
    requires n > 0
    ensures Splits(a, angles, k, n, trig) ==
              Asteroids.Split(a, angles(k), trig) + Splits(a, angles, k + 1, n - 1, trig)
  {
  }

  /** The first snapshot asteroid's children and the rest. */
  lemma ChildrenStep(asteroids: seq<Circle>, hits: seq<nat>, angles: nat -> real, k: nat, trig: Trig)
    requires |hits| == |asteroids| && asteroids != []
    ensures Children(asteroids, hits, angles, k, trig) ==
              Splits(asteroids[0], angles, k, hits[0], trig) +
              Children(asteroids[1..], hits[1..], angles, k + hits[0], trig)
  {
  }

  /** The first snapshot asteroid's splits are among the children. */
  lemma FirstSplitsAmong(asteroids: seq<Circle>, hits: seq<nat>, angles: nat -> real, k: nat, trig: Trig)
    requires |hits| == |asteroids| && asteroids != []
    ensures multiset(Splits(asteroids[0], angles, k, hits[0], trig)) <=
            multiset(Children(asteroids, hits, angles, k, trig))
  {
    ChildrenStep(asteroids, hits, angles, k, trig);
  }

  /** What is among the later snapshot asteroids' children is among all of them. */
  lemma LaterAmong(xs: seq<Circle>, asteroids: seq<Circle>, hits: seq<nat>, angles: nat -> real, k: nat, trig: Trig)
    requires |hits| == |asteroids| && asteroids != []
    requires multiset(xs) <= multiset(Children(asteroids[1..], hits[1..], angles, k + hits[0], trig))
    ensures multiset(xs) <= multiset(Children(asteroids, hits, angles, k, trig))
  {
    ChildrenStep(asteroids, hits, angles, k, trig);
  }

  /** Every snapshot asteroid's splits, made with consecutive angles of the
      frame from some angles(j) on, are among the asteroids created, counted
      with multiplicity. */
  lemma {:induction false} ChildrenOfHit(asteroids: seq<Circle>, hits: seq<nat>, angles: nat -> real,
                                         k: nat, trig: Trig, i: int)
    returns (j: nat)
    requires |hits| == |asteroids| && 0 <= i < |asteroids|
    ensures k <= j
    ensures multiset(Splits(asteroids[i], angles, j, hits[i], trig)) <=
            multiset(Children(asteroids, hits, angles, k, trig))
    decreases |asteroids|
  {
    if i == 0 {
      j := k;
      FirstSplitsAmong(asteroids, hits, angles, k, trig);
    } else {
      var tail, tailHits := asteroids[1..], hits[1..];
      assert tail[i - 1] == asteroids[i] && tailHits[i - 1] == hits[i];
      j := ChildrenOfHit(tail, tailHits, angles, k + hits[0], trig, i - 1);
      LaterAmong(Splits(asteroids[i], angles, j, hits[i], trig), asteroids, hits, angles, k, trig);
    }
  }

  /** The asteroid group after the pass, survivors then children: the first
      kept of them are the snapshot asteroids less exactly one copy per hit
      asteroid, and the rest descend from snapshot asteroids, two per
      splittable hit. */
  lemma SurvivorsThenChildren(asteroids: seq<Circle>, hits: seq<nat>, angles: nat -> real, k: nat, trig: Trig)
    requires |hits| == |asteroids|
    ensures var r := Survivors(asteroids, hits) + Children(asteroids, hits, angles, k, trig);
      var kept := |asteroids| - HitCount(hits);
      && 0 <= kept <= |r| && |r| == kept + 2 * SplittableHits(asteroids, hits)
      && multiset(r[..kept]) <= multiset(asteroids)
      && (forall i :: 0 <= i < |asteroids| && hits[i] > 0 ==>
            multiset(r[..kept])[asteroids[i]] < multiset(asteroids)[asteroids[i]])
      && (forall c :: c in r[kept..] ==> Descends(c, asteroids))
      && (forall x :: multiset(r[..kept])[x] + HitCopies(asteroids, hits, x) == multiset(asteroids)[x])
  {
    var survivors := Survivors(asteroids, hits);
    var children := Children(asteroids, hits, angles, k, trig);
    var r := survivors + children;
    var kept := |asteroids| - HitCount(hits);
    assert r[..kept] == survivors && r[kept..] == children;
    SurvivorsSubMultiset(asteroids, hits);
    SurvivorsCount(asteroids, hits);
    ChildrenDescend(asteroids, hits, angles, k, trig);
    forall i | 0 <= i < |asteroids| && hits[i] > 0
      ensures multiset(survivors)[asteroids[i]] < multiset(asteroids)[asteroids[i]]
    {
      SurvivorsDropHit(asteroids, hits, i);
    }
  }

  /** The hits on asteroids at least ASTEROID_MIN_RADIUS across the pass. */
  function SplittableHits(asteroids: seq<Circle>, hits: seq<nat>): (n: nat)
    requires |hits| == |asteroids|
    decreases |asteroids|
  {
    if asteroids == [] then 0
    else (if asteroids[0].radius < ASTEROID_MIN_RADIUS then 0 else hits[0]) +
         SplittableHits(asteroids[1..], hits[1..])
  }

  /** A shared shot's only split is the first asteroid's, with the frame's
      first angle. */
  lemma SharedShotChildren(first: Circle, second: Circle, angles: nat -> real, trig: Trig)
    ensures Children([first, second], [1, 0], angles, 0, trig) == Asteroids.Split(first, angles(0), trig)
  {
    assert [first, second][1..] == [second];
    assert [1, 0][1..] == [0];
    assert Splits(first, angles, 0, 1, trig) == Asteroids.Split(first, angles(0), trig) + [];
    assert [second][1..] == [];
    assert Children([second], [0], angles, 1, trig) == [];
  }
}
