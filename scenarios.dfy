/** Worked cases of the march on a one-sphere scene. */
module Scenarios {
  import opened Vectors
  import opened Surfaces
  import opened Scenes
  import opened Rays

  lemma DistanceAlongZ(length: Vec3 -> real, a: real)
    requires IsLength(length)
    requires 0.0 <= a
    ensures length(Vec3(0.0, 0.0, -a)) == a
  {
    assert Sq(0.0) == 0.0;
    ProductOfNegations(a, a);
    LengthIs(length, Vec3(0.0, 0.0, -a), a);
  }

  /** The sphere of radius 2 centred at (0, 0, 5) is 3 away from the
      origin and touches (0, 0, 3). */
  lemma SphereOnAxis(length: Vec3 -> real, color: Color)
    requires IsLength(length)
    ensures Sdf(Sphere(Vec3(0.0, 0.0, 5.0), 2.0, color), length, Zero) == 3.0
    ensures Sdf(Sphere(Vec3(0.0, 0.0, 5.0), 2.0, color), length, Vec3(0.0, 0.0, 3.0)) == 0.0
  {
    assert Sub(Zero, Vector(Vec3(0.0, 0.0, 5.0))) == Vec3(0.0, 0.0, -5.0);
    assert Sub(Vec3(0.0, 0.0, 3.0), Vector(Vec3(0.0, 0.0, 5.0))) == Vec3(0.0, 0.0, -2.0);
    DistanceAlongZ(length, 5.0);
    DistanceAlongZ(length, 2.0);
  }

  lemma MarchOnAxis(length: Vec3 -> real, color: Color)
    requires Sdf(Sphere(Vec3(0.0, 0.0, 5.0), 2.0, color), length, Zero) == 3.0
    requires Sdf(Sphere(Vec3(0.0, 0.0, 5.0), 2.0, color), length, Vec3(0.0, 0.0, 3.0)) == 0.0
    ensures MarchResult(Ray(Zero, Vec3(0.0, 0.0, 1.0)),
                        SdfOf([Sphere(Vec3(0.0, 0.0, 5.0), 2.0, color)], length), 10.0) == 3.0
  {
    var s := Sphere(Vec3(0.0, 0.0, 5.0), 2.0, color);
    var ray := Ray(Zero, Vec3(0.0, 0.0, 1.0));
    var sdf := SdfOf([s], length);
    SingletonScene(s, length, Zero);
    SingletonScene(s, length, Vec3(0.0, 0.0, 3.0));
    assert ray.At(0.0) == Zero;
    assert ray.At(3.0) == Vec3(0.0, 0.0, 3.0);
    assert sdf(ray.At(0.0)) == 3.0;
    assert sdf(ray.At(3.0)) == 0.0;
    assert MarchFrom(ray, sdf, 10.0, 3.0) == 3.0;
  }

  /** A ray from the origin straight along +z towards a sphere of radius 2
      centred at (0, 0, 5) stops after two samples, at distance 3 (first
      step 5 - 2 = 3, then a point on the sphere). */
  lemma StraightRayHitsSphere(length: Vec3 -> real, color: Color)
    requires IsLength(length)
    ensures MarchResult(Ray(Zero, Vec3(0.0, 0.0, 1.0)),
                        SdfOf([Sphere(Vec3(0.0, 0.0, 5.0), 2.0, color)], length), 10.0) == 3.0
  {
    SphereOnAxis(length, color);
    MarchOnAxis(length, color);
  }

  /** In a one-sphere scene, a ray starting more than `max + radius` from
      the centre reports `max`: the first sample is already farther than
      the limit. A limit below the hit threshold is excluded, since then
      the start point itself may count as a hit. */
  lemma FarSphereIsMissed(length: Vec3 -> real, center: Vec3, radius: real, color: Color,
                          ray: Ray, max: real)
    requires HitEpsilon <= max
    requires max + radius < length(Sub(ray.origin, Vector(center)))
    ensures MarchResult(ray, SdfOf([Sphere(center, radius, color)], length), max) == max
  {
    var s := Sphere(center, radius, color);
    var sdf := SdfOf([s], length);
    AtZero(ray);
    SingletonScene(s, length, ray.origin);
    var d := sdf(ray.At(0.0));
    assert max < d;
    assert MarchFrom(ray, sdf, max, d) == max;
  }

  /** Why `FarSphereIsMissed` needs a limit of at least the hit threshold:
      the sphere of radius 2 centred at (0, 0, 2.005) is farther than
      `0.004 + 2` from the origin, yet the march with limit 0.004 reports a
      hit at 0, because the start point is already 0.005 from the sphere. */
  lemma TinyLimitHitsAtStart(length: Vec3 -> real, color: Color)
    requires IsLength(length)
    ensures 0.004 + 2.0 < length(Sub(Zero, Vector(Vec3(0.0, 0.0, 2.005))))
    ensures MarchResult(Ray(Zero, Vec3(0.0, 0.0, 1.0)),
                        SdfOf([Sphere(Vec3(0.0, 0.0, 2.005), 2.0, color)], length), 0.004) == 0.0
  {
    assert Sub(Zero, Vector(Vec3(0.0, 0.0, 2.005))) == Vec3(0.0, 0.0, -2.005);
    DistanceAlongZ(length, 2.005);
    TinyLimitMarch(length, color);
  }

  lemma TinyLimitMarch(length: Vec3 -> real, color: Color)
    requires length(Vec3(0.0, 0.0, -2.005)) == 2.005
    ensures MarchResult(Ray(Zero, Vec3(0.0, 0.0, 1.0)),
                        SdfOf([Sphere(Vec3(0.0, 0.0, 2.005), 2.0, color)], length), 0.004) == 0.0
  {
    var s := Sphere(Vec3(0.0, 0.0, 2.005), 2.0, color);
    assert Sub(Zero, Vector(Vec3(0.0, 0.0, 2.005))) == Vec3(0.0, 0.0, -2.005);
    SingletonScene(s, length, Zero);
    MarchFromSurface(Ray(Zero, Vec3(0.0, 0.0, 1.0)), SdfOf([s], length), 0.004);
  }
}
