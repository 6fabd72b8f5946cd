/** Sphere tracing. A ray steps forward from its origin by the signed
    distance found at the current point, until that distance falls below
    0.01 (a hit, reporting the distance travelled) or the travelled
    distance reaches the limit (reporting the limit). The distance field
    is any function from points to reals. */
module Rays {
  import opened Vectors

  datatype Ray = Ray(origin: Vec3, direction: Vec3) {
    /** The point `origin + direction * t`. */
    function At(t: real): Vec3 {
      Add(origin, Vector(Mul(direction, Scalar(t))))
    }
  }

  /** A point whose distance is below this counts as a hit. */
  const HitEpsilon: real := 0.01

  /** Every step that does not stop the march advances by at least
      `HitEpsilon`, so hundredths of the distance left bound the steps. */
  function Budget(max: real, t: real): int {
    ((max - t) * 100.0).Floor
  }

  lemma BudgetShrinks(max: real, t: real, d: real)
    requires t < max && HitEpsilon <= d
    ensures 0 <= Budget(max, t)
    ensures Budget(max, t + d) < Budget(max, t)
  {
    assert (max - (t + d)) * 100.0 <= (max - t) * 100.0 - 1.0;
  }

  /** The march continued from travelled distance `t`. */
  function MarchFrom(ray: Ray, sdf: Vec3 -> real, max: real, t: real): (r: real)
    ensures r <= max
    ensures r == max || t <= r
    ensures r < max ==> sdf(ray.At(r)) < HitEpsilon
    decreases Budget(max, t)
  {
    if t < max then
      var d := sdf(ray.At(t));
      if d < HitEpsilon then t
      else
        BudgetShrinks(max, t, d);
        MarchFrom(ray, sdf, max, t + d)
    else max
  }

  /** The distance `Ray#march` reports from a standing start. */
  function MarchResult(ray: Ray, sdf: Vec3 -> real, max: real): real {
    MarchFrom(ray, sdf, max, 0.0)
  }

  /** The sphere-tracing loop itself. */
  method March(ray: Ray, sdf: Vec3 -> real, max: real) returns (t: real)
    ensures t == MarchResult(ray, sdf, max)
    ensures t <= max
    ensures t < max ==> sdf(ray.At(t)) < HitEpsilon
  {
    var traversed := 0.0;
    while traversed < max
      invariant MarchFrom(ray, sdf, max, traversed) == MarchResult(ray, sdf, max)
      decreases Budget(max, traversed)
    {
      var point := ray.At(traversed);
      var distance := sdf(point);
      if distance < HitEpsilon {
        return traversed;
      }
      BudgetShrinks(max, traversed, distance);
      traversed := traversed + distance;
    }
    return max;
  }

  /** The march never reports more than the limit, and never a negative
      distance when the limit is non-negative. */
  lemma {:induction false} MarchBounds(ray: Ray, sdf: Vec3 -> real, max: real)
    ensures MarchResult(ray, sdf, max) <= max
    ensures 0.0 <= max ==> 0.0 <= MarchResult(ray, sdf, max)
  {
    var r := MarchResult(ray, sdf, max);
    assert r == max || 0.0 <= r;
  }

  /** A reported distance below the limit lies on the surface. */
  lemma MarchHit(ray: Ray, sdf: Vec3 -> real, max: real)
    ensures MarchResult(ray, sdf, max) < max
            ==> sdf(ray.At(MarchResult(ray, sdf, max))) < HitEpsilon
  {
  }

  lemma AtZero(ray: Ray)
    ensures ray.At(0.0) == ray.origin
  {
  }

  /** Starting on a surface reports zero, given a positive limit. */
  lemma MarchFromSurface(ray: Ray, sdf: Vec3 -> real, max: real)
    requires sdf(ray.origin) < HitEpsilon && 0.0 < max
    ensures MarchResult(ray, sdf, max) == 0.0
  {
    AtZero(ray);
  }

  /** A march that meets no point within `HitEpsilon` of a surface before
      the limit reports the limit. */
  lemma {:induction false} MarchFromMiss(ray: Ray, sdf: Vec3 -> real, max: real, t: real)
    requires forall s :: t <= s < max ==> HitEpsilon <= sdf(ray.At(s))
    ensures MarchFrom(ray, sdf, max, t) == max
    decreases Budget(max, t)
  {
    if t < max {
      var d := sdf(ray.At(t));
      BudgetShrinks(max, t, d);
      MarchFromMiss(ray, sdf, max, t + d);
    }
  }

  lemma MarchMiss(ray: Ray, sdf: Vec3 -> real, max: real)
    requires forall s :: 0.0 <= s < max ==> HitEpsilon <= sdf(ray.At(s))
    ensures MarchResult(ray, sdf, max) == max
  {
    MarchFromMiss(ray, sdf, max, 0.0);
  }

  /** Along a ray of unit direction, the point at `s` is `s - t` away
      from the point at `t`. */
  lemma AlongUnitRay(length: Vec3 -> real, ray: Ray, t: real, s: real)
    requires IsLength(length) && LengthSquared(ray.direction) == 1.0
    requires t <= s
    ensures length(Sub(ray.At(t), Vector(ray.At(s)))) == s - t
  {
    var d := ray.direction;
    assert Sub(ray.At(t), Vector(ray.At(s))) == Mul(d, Scalar(t - s));
    LengthSquaredScaled(d, t - s);
    ProductOfNegations(s - t, s - t);
    LengthIs(length, Mul(d, Scalar(t - s)), s - t);
  }

  /** A step of the current distance skips no point on or inside a
      surface, when the distance field is 1-Lipschitz. */
  lemma StepPassesNoSurface(length: Vec3 -> real, ray: Ray, sdf: Vec3 -> real, t: real, s: real)
    requires IsLength(length) && Lipschitz(sdf, length) && LengthSquared(ray.direction) == 1.0
    requires t <= s < t + sdf(ray.At(t))
    ensures 0.0 < sdf(ray.At(s))
  {
    AlongUnitRay(length, ray, t, s);
    assert sdf(ray.At(t)) <= sdf(ray.At(s)) + length(Sub(ray.At(t), Vector(ray.At(s))));
  }

  /** No step from any point of the ray skips a point on or inside a
      surface. */
  ghost predicate StepsSafe(ray: Ray, sdf: Vec3 -> real) {
    forall t, s :: t <= s < t + sdf(ray.At(t)) ==> 0.0 < sdf(ray.At(s))
  }

  lemma LipschitzStepsSafe(length: Vec3 -> real, ray: Ray, sdf: Vec3 -> real)
    requires IsLength(length) && Lipschitz(sdf, length) && LengthSquared(ray.direction) == 1.0
    ensures StepsSafe(ray, sdf)
  {
    forall t, s | t <= s < t + sdf(ray.At(t))
      ensures 0.0 < sdf(ray.At(s))
    {
      StepPassesNoSurface(length, ray, sdf, t, s);
    }
  }

  /** The continued march passes through no surface: every point before
      the reported distance is strictly outside. */
  lemma {:induction false} MarchFromPassesNoSurface(ray: Ray, sdf: Vec3 -> real, max: real, t: real)
    requires StepsSafe(ray, sdf)
    requires forall s :: 0.0 <= s < t ==> 0.0 < sdf(ray.At(s))
    ensures forall s :: 0.0 <= s < MarchFrom(ray, sdf, max, t) ==> 0.0 < sdf(ray.At(s))
    decreases Budget(max, t)
  {
    if t < max {
      var d := sdf(ray.At(t));
      if HitEpsilon <= d {
        BudgetShrinks(max, t, d);
        assert forall s :: 0.0 <= s < t + d ==> 0.0 < sdf(ray.At(s));
        MarchFromPassesNoSurface(ray, sdf, max, t + d);
      }
    }
  }

  /** With a 1-Lipschitz distance field and a unit direction, the march
      never passes through a surface. */
  lemma MarchPassesNoSurface(length: Vec3 -> real, ray: Ray, sdf: Vec3 -> real, max: real)
    requires IsLength(length) && Lipschitz(sdf, length) && LengthSquared(ray.direction) == 1.0
    ensures forall s :: 0.0 <= s < MarchResult(ray, sdf, max) ==> 0.0 < sdf(ray.At(s))
  {
    LipschitzStepsSafe(length, ray, sdf);
    MarchFromPassesNoSurface(ray, sdf, max, 0.0);
  }

  /** A non-positive limit is reported unchanged without a step. */
  lemma MarchNoRoom(ray: Ray, sdf: Vec3 -> real, max: real)
    requires max <= 0.0
    ensures MarchResult(ray, sdf, max) == max
  {
  }

  /** The number of samples the march takes from travelled distance `t`. */
  function Steps(ray: Ray, sdf: Vec3 -> real, max: real, t: real): nat
    decreases Budget(max, t)
  {
    if t < max then
      var d := sdf(ray.At(t));
      if d < HitEpsilon then 1
      else
        BudgetShrinks(max, t, d);
        1 + Steps(ray, sdf, max, t + d)
    else 0
  }

  /** The march terminates within `floor(100 (max - t)) + 1` samples. */
  lemma {:induction false} StepsBounded(ray: Ray, sdf: Vec3 -> real, max: real, t: real)
    ensures t < max ==> Steps(ray, sdf, max, t) <= Budget(max, t) + 1
    ensures max <= t ==> Steps(ray, sdf, max, t) == 0
    decreases Budget(max, t)
  {
    if t < max {
      var d := sdf(ray.At(t));
      if HitEpsilon <= d {
        BudgetShrinks(max, t, d);
        StepsBounded(ray, sdf, max, t + d);
        if t + d < max {
          assert 0 <= Budget(max, t + d);
        }
      }
    }
  }
}
