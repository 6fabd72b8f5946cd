/** The two surface primitives of the renderer, each with a signed
    distance function and a surface colour: a sphere with a fixed colour,
    and the checkerboard ground plane at height 4. */
module Surfaces {
  import opened Vectors

  /** An RGB colour. Channels are conventionally in [0, 255] but are not
      clamped; shading may halve them. */
  datatype Color = Color(r: real, g: real, b: real)

  const White: Color := Color(255.0, 255.0, 255.0)

  /** The height of the ground plane. */
  const FloorHeight: real := 4.0

  datatype Surface =
    | Sphere(center: Vec3, radius: real, color: Color)
    | Plane(lightTile: Color, darkTile: Color)

  function Abs(a: real): real {
    if a < 0.0 then -a else a
  }

  /** Signed distance from `p` to the surface: for a sphere the distance
      to its centre minus its radius, for the plane the vertical distance
      to the floor height. */
  function Sdf(s: Surface, length: Vec3 -> real, p: Vec3): real {
    match s
    case Sphere(center, radius, _) => length(Sub(p, Vector(center))) - radius
    case Plane(_, _) => Abs(p.y - FloorHeight)
  }

  predicate IsEven(n: int) {
    n % 2 == 0
  }

  /** The checkerboard tile under `p` is light when the floors of its x and
      z coordinates have the same parity. */
  predicate LightTile(p: Vec3) {
    IsEven(p.x.Floor) == IsEven(p.z.Floor)
  }

  function ColorAt(s: Surface, p: Vec3): Color {
    match s
    case Sphere(_, _, color) => color
    case Plane(lightTile, darkTile) => if LightTile(p) then lightTile else darkTile
  }

  // ---------------------------------------------------------------------
  // Spheres

  /** At its centre a sphere's distance is minus its radius. */
  lemma SphereSdfAtCenter(center: Vec3, radius: real, color: Color, length: Vec3 -> real)
    requires IsLength(length)
    ensures Sdf(Sphere(center, radius, color), length, center) == -radius
  {
    SubSelfIsZero(center);
    LengthOfZero(length);
  }

  lemma LengthOfZero(length: Vec3 -> real)
    requires IsLength(length)
    ensures length(Zero) == 0.0
  {
    LengthZeroIff(length, Zero);
  }

  /** A sphere of non-negative radius has negative distance exactly inside
      it and zero distance exactly on it, judged by squared distances. */
  lemma SphereSdfSign(center: Vec3, radius: real, color: Color, length: Vec3 -> real, p: Vec3)
    requires IsLength(length)
    requires 0.0 <= radius
    ensures Sdf(Sphere(center, radius, color), length, p) < 0.0
            <==> LengthSquared(Sub(p, Vector(center))) < Sq(radius)
    ensures Sdf(Sphere(center, radius, color), length, p) == 0.0
            <==> LengthSquared(Sub(p, Vector(center))) == Sq(radius)
  {
    var d := Sub(p, Vector(center));
    LengthFacts(length, d);
    SquareMonotone(length(d), radius);
  }

  /** Moving from `q` to `p` raises a surface's distance by at most the
      distance moved: for a sphere by the triangle inequality, for the
      plane because the height changes by at most the distance moved. */
  lemma SdfStep(s: Surface, length: Vec3 -> real, p: Vec3, q: Vec3)
    requires IsLength(length)
    ensures Sdf(s, length, p) <= Sdf(s, length, q) + length(Sub(p, Vector(q)))
  {
    var d := Sub(p, Vector(q));
    match s
    case Sphere(center, _, _) =>
      assert Add(Sub(q, Vector(center)), Vector(d)) == Sub(p, Vector(center));
      TriangleInequality(length, Sub(q, Vector(center)), d);
    case Plane(_, _) =>
      ComponentBound(length, d);
  }

  /** Both surface distances are true signed distances (1-Lipschitz): they
      differ at two points by at most the distance between the points. */
  lemma SdfLipschitz(s: Surface, length: Vec3 -> real, p: Vec3, q: Vec3)
    requires IsLength(length)
    ensures Abs(Sdf(s, length, p) - Sdf(s, length, q)) <= length(Sub(p, Vector(q)))
  {
    var d := Sub(p, Vector(q));
    assert Sub(q, Vector(p)) == Neg(d);
    NegPreservesLength(d);
    LengthFacts(length, d);
    LengthIs(length, Neg(d), length(d));
    SdfStep(s, length, p, q);
    SdfStep(s, length, q, p);
  }

  /** A sphere's colour does not depend on the point asked about. */
  lemma SphereColorIgnoresPoint(center: Vec3, radius: real, color: Color, p: Vec3, q: Vec3)
    ensures ColorAt(Sphere(center, radius, color), p) == color
    ensures ColorAt(Sphere(center, radius, color), p) == ColorAt(Sphere(center, radius, color), q)
  {
  }

  // ---------------------------------------------------------------------
  // The checkerboard plane

  /** The plane's distance is never negative and vanishes exactly at the
      floor height; it ignores x and z. */
  lemma PlaneSdfNonNegative(lightTile: Color, darkTile: Color, length: Vec3 -> real, p: Vec3)
    ensures 0.0 <= Sdf(Plane(lightTile, darkTile), length, p)
    ensures Sdf(Plane(lightTile, darkTile), length, p) == 0.0 <==> p.y == FloorHeight
    ensures Sdf(Plane(lightTile, darkTile), length, p)
            == Sdf(Plane(lightTile, darkTile), length, Vec3(0.0, p.y, 0.0))
  {
  }

  /** Same parity of the two floors is the same as an even sum. */
  lemma LightTileIsEvenSum(p: Vec3)
    ensures LightTile(p) <==> IsEven(p.x.Floor + p.z.Floor)
  {
  }

  /** The plane's colour as a function of the parity of floor(x) + floor(z). */
  lemma PlaneColorByParity(lightTile: Color, darkTile: Color, p: Vec3)
    ensures IsEven(p.x.Floor + p.z.Floor) ==> ColorAt(Plane(lightTile, darkTile), p) == lightTile
    ensures !IsEven(p.x.Floor + p.z.Floor) ==> ColorAt(Plane(lightTile, darkTile), p) == darkTile
  {
    LightTileIsEvenSum(p);
  }

  lemma FloorShift(a: real)
    ensures (a + 1.0).Floor == a.Floor + 1
  {
  }

  /** Moving one unit along x, or along z, crosses onto a tile of the other
      kind; moving one unit along both keeps the kind. */
  lemma TileShifts(p: Vec3)
    ensures LightTile(Vec3(p.x + 1.0, p.y, p.z)) == !LightTile(p)
    ensures LightTile(Vec3(p.x, p.y, p.z + 1.0)) == !LightTile(p)
    ensures LightTile(Vec3(p.x + 1.0, p.y, p.z + 1.0)) == LightTile(p)
  {
    FloorShift(p.x);
    FloorShift(p.z);
  }

  /** The plane colour after a unit step along x flips between the tiles. */
  lemma PlaneColorShiftX(lightTile: Color, darkTile: Color, p: Vec3)
    ensures ColorAt(Plane(lightTile, darkTile), Vec3(p.x + 1.0, p.y, p.z))
            == (if LightTile(p) then darkTile else lightTile)
    ensures ColorAt(Plane(lightTile, darkTile), Vec3(p.x + 1.0, p.y, p.z + 1.0))
            == ColorAt(Plane(lightTile, darkTile), p)
  {
    TileShifts(p);
  }

  /** Adjacent tiles differ and diagonal tiles agree, at the centres of the
      tiles around the origin. */
  lemma CheckerboardSamples(lightTile: Color, darkTile: Color, h: real)
    requires lightTile != darkTile
    ensures ColorAt(Plane(lightTile, darkTile), Vec3(0.5, h, 0.5)) == lightTile
    ensures ColorAt(Plane(lightTile, darkTile), Vec3(1.5, h, 0.5)) == darkTile
    ensures ColorAt(Plane(lightTile, darkTile), Vec3(1.5, h, 1.5)) == lightTile
    ensures ColorAt(Plane(lightTile, darkTile), Vec3(0.5, h, 0.5))
            != ColorAt(Plane(lightTile, darkTile), Vec3(1.5, h, 0.5))
  {
    assert (0.5).Floor == 0;
    assert (1.5).Floor == 1;
  }
}
