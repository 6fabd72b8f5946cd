/** The renderer: for every pixel it marches a primary ray from the origin
    through a point of the far plane, marches a light ray to decide the
    shadow flag, and for a sphere hit marches a mirror ray whose landing
    colour replaces the pixel colour. */
module Rendering {
  import opened Vectors
  import opened Surfaces
  import opened Scenes
  import opened Rays
  import opened Pixels

  /** `width` and `height` in pixels; `depth` is the far-plane distance and
      the primary march limit. */
  datatype Renderer = Renderer(width: nat, height: nat, depth: real)

  const Origin: Vec3 := Zero
  const FovPercent: real := 1.5
  const LightDistance: real := 10.0
  /** The march limit of the mirror ray. */
  const ReflectionDistance: real := 10.0
  /** How far back along the light direction the light ray starts. */
  const LightOffset: real := 0.1
  /** How far along the mirror direction the mirror ray starts. */
  const ReflectionOffset: real := 0.01

  /** The light arrives along `-normalize(1, 1, 1)`. */
  function LightDirection(length: Vec3 -> real): (l: Vec3)
    requires IsLength(length)
    ensures LengthSquared(l) == 1.0
  {
    NormalizeIsUnit(length, Vec3(1.0, 1.0, 1.0));
    Normalize(length, Vec3(1.0, 1.0, 1.0))
  }

  // ---------------------------------------------------------------------
  // Primary rays

  function FarPlaneWidth(r: Renderer): real
    requires 0 < r.height
  {
    r.depth * FovPercent * ((r.width as real) / (r.height as real))
  }

  function FarPlaneHeight(r: Renderer): real {
    r.depth * FovPercent
  }

  /** The point of the far plane that pixel (x, y) looks through. */
  function FarPlanePoint(r: Renderer, x: nat, y: nat): Vec3
    requires 0 < r.width && 0 < r.height
  {
    var w, h := FarPlaneWidth(r), FarPlaneHeight(r);
    Vec3(AxisCoordinate(w, x, r.width), AxisCoordinate(h, y, r.height), r.depth)
  }

  /** The far-plane coordinate of pixel `i` of `n` along an axis of
      extent `w`: `w * (i / n) - w / 2`. */
  function AxisCoordinate(w: real, i: nat, n: nat): real
    requires 0 < n
  {
    Times(w, (i as real) / (n as real)) - w / 2.0
  }

  lemma FractionInUnit(i: nat, n: nat)
    requires i < n
    ensures 0.0 <= (i as real) / (n as real) < 1.0
    ensures 2 * i == n ==> (i as real) / (n as real) == 0.5
  {
  }

  /** Along an axis of positive extent `w` the in-frame pixels lie in
      `[-w/2, w/2)`, and the middle pixel of an even count lies on the
      view axis. */
  lemma AxisBounds(w: real, i: nat, n: nat)
    requires i < n && 0.0 < w
    ensures -w / 2.0 <= AxisCoordinate(w, i, n) < w / 2.0
    ensures 2 * i == n ==> AxisCoordinate(w, i, n) == 0.0
  {
    var f := (i as real) / (n as real);
    FractionInUnit(i, n);
    if 0.0 < f {
      PositiveProduct(w, f);
    } else {
      assert Times(w, f) == 0.0;
    }
    ProductMonotone(w, f, 1.0);
    assert Times(w, 1.0) == w;
    if 2 * i == n {
      assert Times(w, 0.5) == w / 2.0;
    }
  }

  /** Pixel columns span the far plane's width and rows its height, both
      centred on the view axis, and the far-plane point lies at the depth. */
  lemma FarPlaneBounds(r: Renderer, x: nat, y: nat)
    requires x < r.width && y < r.height && 0.0 < r.depth
    ensures var p := FarPlanePoint(r, x, y);
            && -FarPlaneWidth(r) / 2.0 <= p.x < FarPlaneWidth(r) / 2.0
            && -FarPlaneHeight(r) / 2.0 <= p.y < FarPlaneHeight(r) / 2.0
            && p.z == r.depth
    ensures 2 * x == r.width ==> FarPlanePoint(r, x, y).x == 0.0
    ensures 2 * y == r.height ==> FarPlanePoint(r, x, y).y == 0.0
  {
    var aspect := (r.width as real) / (r.height as real);
    assert 0.0 < aspect;
    PositiveProduct(r.depth * FovPercent, aspect);
    AxisBounds(FarPlaneWidth(r), x, r.width);
    AxisBounds(FarPlaneHeight(r), y, r.height);
  }

  /** What every pixel needs: a Euclidean length, a pixel of the frame and
      a far plane off the origin (so the primary direction is defined). */
  ghost predicate InFrame(r: Renderer, length: Vec3 -> real, x: nat, y: nat) {
    IsLength(length) && x < r.width && y < r.height && r.depth != 0.0
  }

  /** The primary ray, from the origin towards the far-plane point. */
  function PrimaryRay(r: Renderer, length: Vec3 -> real, x: nat, y: nat): (ray: Ray)
    requires InFrame(r, length, x, y)
    ensures ray.origin == Origin && LengthSquared(ray.direction) == 1.0
  {
    var toFarPlane := Sub(FarPlanePoint(r, x, y), Vector(Origin));
    assert toFarPlane.z == r.depth;
    NormalizeIsUnit(length, toFarPlane);
    Ray(Origin, Normalize(length, toFarPlane))
  }

  /** The distance the primary ray travels, limited by the depth. */
  function PrimaryDistance(r: Renderer, scene: Scene, length: Vec3 -> real, x: nat, y: nat): real
    requires InFrame(r, length, x, y)
  {
    MarchResult(PrimaryRay(r, length, x, y), SdfOf(scene, length), r.depth)
  }

  /** `origin + direction * distance`. */
  function Collision(r: Renderer, scene: Scene, length: Vec3 -> real, x: nat, y: nat): Vec3
    requires InFrame(r, length, x, y)
  {
    PrimaryRay(r, length, x, y).At(PrimaryDistance(r, scene, length, x, y))
  }

  /** The colour of the surface at the collision point, white without one. */
  function BaseColor(scene: Scene, length: Vec3 -> real, collision: Vec3): Color {
    match SceneObj(scene, length, collision)
    case Some(s) => ColorAt(s, collision)
    case None => White
  }

  /** A primary march that stops short of the depth has hit a surface, so
      the pixel takes that surface's colour rather than the white fallback. */
  lemma PrimaryHitHasObject(r: Renderer, scene: Scene, length: Vec3 -> real, x: nat, y: nat)
    requires InFrame(r, length, x, y)
    requires PrimaryDistance(r, scene, length, x, y) < r.depth
    ensures var c := Collision(r, scene, length, x, y);
            && SceneObj(scene, length, c).Some?
            && BaseColor(scene, length, c) == ColorAt(SceneObj(scene, length, c).value, c)
  {
    var ray, d := PrimaryRay(r, length, x, y), PrimaryDistance(r, scene, length, x, y);
    MarchHit(ray, SdfOf(scene, length), r.depth);
    assert SceneSdf(scene, length, ray.At(d)) < HitEpsilon;
    NearPointHasObject(scene, length, ray.At(d));
  }

  /** The primary ray passes through no surface on its way to the
      collision point: every earlier point is strictly outside the scene. */
  lemma PrimaryRayPassesNoSurface(r: Renderer, scene: Scene, length: Vec3 -> real, x: nat, y: nat)
    requires InFrame(r, length, x, y)
    ensures forall s :: 0.0 <= s < PrimaryDistance(r, scene, length, x, y)
              ==> 0.0 < SceneSdf(scene, length, PrimaryRay(r, length, x, y).At(s))
  {
    var ray := PrimaryRay(r, length, x, y);
    SceneIsLipschitz(scene, length);
    MarchPassesNoSurface(length, ray, SdfOf(scene, length), r.depth);
  }

  // ---------------------------------------------------------------------
  // Shadows

  /** The light ray starts a little back along the light direction from
      the collision point and travels against it. */
  function LightRay(length: Vec3 -> real, collision: Vec3): Ray
    requires IsLength(length)
  {
    var light := LightDirection(length);
    Ray(Sub(collision, Vector(Mul(light, Scalar(LightOffset)))), Neg(light))
  }

  predicate InShadow(scene: Scene, length: Vec3 -> real, collision: Vec3)
    requires IsLength(length)
  {
    MarchResult(LightRay(length, collision), SdfOf(scene, length), LightDistance) < LightDistance
  }

  /** A point is in shadow exactly when the light ray meets a surface
      within the light distance; otherwise that march runs out at exactly
      the light distance. */
  lemma ShadowMeansOccluder(scene: Scene, length: Vec3 -> real, collision: Vec3)
    requires IsLength(length)
    ensures var ray := LightRay(length, collision);
            var t := MarchResult(ray, SdfOf(scene, length), LightDistance);
            && (InShadow(scene, length, collision) ==> 0.0 <= t && SceneSdf(scene, length, ray.At(t)) < HitEpsilon)
            && (!InShadow(scene, length, collision) <==> t == LightDistance)
  {
    var ray := LightRay(length, collision);
    MarchHit(ray, SdfOf(scene, length), LightDistance);
    MarchBounds(ray, SdfOf(scene, length), LightDistance);
  }

  // ---------------------------------------------------------------------
  // Mirror reflections off spheres

  /** The direction of the mirror ray: the reversed primary direction `a`
      mirrored about the sphere normal by `a + 2 * (proj_a_onto_b(a, n) - a)`
      with the projection as written, then normalised. */
  function MirrorDirection(length: Vec3 -> real, direction: Vec3, normal: Vec3): (m: Vec3)
    requires IsLength(length)
    requires LengthSquared(direction) == 1.0 && LengthSquared(normal) == 1.0
    ensures LengthSquared(m) == 1.0
    ensures m == Reflect(Neg(direction), normal)
  {
    var a := Neg(direction);
    NegPreservesLength(direction);
    ProjectionsAgreeOnEqualLengths(a, normal);
    var raw := Add(a, Vector(Scale(2.0, Sub(ProjAOntoB(a, normal), Vector(a)))));
    assert raw == Reflect(a, normal);
    ReflectPreservesLength(a, normal);
    NormalizeUnit(length, raw);
    Normalize(length, raw)
  }

  /** The mirror direction is the exact reflection: the angle to the
      normal is kept, reflecting it back gives the reversed primary
      direction, and the as-written projection agrees with the orthogonal
      one on these unit vectors. */
  lemma MirrorDirectionIsReflection(length: Vec3 -> real, direction: Vec3, normal: Vec3)
    requires IsLength(length)
    requires LengthSquared(direction) == 1.0 && LengthSquared(normal) == 1.0
    ensures var m := MirrorDirection(length, direction, normal);
            && Dot(m, normal) == Dot(Neg(direction), normal)
            && Reflect(m, normal) == Neg(direction)
    ensures ProjAOntoB(Neg(direction), normal) == ProjectOnto(Neg(direction), normal)
  {
    var a := Neg(direction);
    NegPreservesLength(direction);
    ReflectPreservesLength(a, normal);
    NormalizeUnit(length, Reflect(a, normal));
    ReflectKeepsNormalComponent(a, normal);
    ReflectInvolution(a, normal);
    ProjectionsAgreeOnEqualLengths(a, normal);
  }

  /** `normalize(collision - center)`, defined off the centre. */
  function SphereNormal(length: Vec3 -> real, collision: Vec3, center: Vec3): (n: Vec3)
    requires IsLength(length)
    requires collision != center
    ensures LengthSquared(n) == 1.0
  {
    var toCollision := Sub(collision, Vector(center));
    assert toCollision != Zero;
    NormalizeIsUnit(length, toCollision);
    Normalize(length, toCollision)
  }

  /** The mirror ray starts a hundredth along the mirror direction. */
  function MirrorRay(collision: Vec3, mirror: Vec3): Ray {
    Ray(Add(collision, Vector(Scale(ReflectionOffset, mirror))), mirror)
  }

  /** The colour seen along the mirror direction from a sphere hit, if the
      mirror ray meets a surface within the reflection distance. The
      landing point is measured from the collision point, not from the
      mirror ray's start. */
  function ReflectionColor(scene: Scene, length: Vec3 -> real, direction: Vec3, collision: Vec3,
                           center: Vec3): (o: Option<Color>)
    requires IsLength(length)
    requires LengthSquared(direction) == 1.0
    requires collision != center
    ensures o.Some? ==>
              var m := MirrorDirection(length, direction, SphereNormal(length, collision, center));
              var t := MarchResult(MirrorRay(collision, m), SdfOf(scene, length), ReflectionDistance);
              && t < ReflectionDistance
              && SceneSdf(scene, length, MirrorRay(collision, m).At(t)) < HitEpsilon
              && SceneSdf(scene, length, Add(collision, Vector(Mul(m, Scalar(t))))) < HitTolerance
    ensures var m := MirrorDirection(length, direction, SphereNormal(length, collision, center));
            var t := MarchResult(MirrorRay(collision, m), SdfOf(scene, length), ReflectionDistance);
            var landing := Add(collision, Vector(Mul(m, Scalar(t))));
            && (t < ReflectionDistance && SceneObj(scene, length, landing).Some?
                ==> o == Some(ColorAt(SceneObj(scene, length, landing).value, landing)))
            && (!(t < ReflectionDistance && SceneObj(scene, length, landing).Some?) ==> o == None)
  {
    var mirror := MirrorDirection(length, direction, SphereNormal(length, collision, center));
    var ray := MirrorRay(collision, mirror);
    var t := MarchResult(ray, SdfOf(scene, length), ReflectionDistance);
    MarchHit(ray, SdfOf(scene, length), ReflectionDistance);
    if t < ReflectionDistance then
      var landing := Add(collision, Vector(Mul(mirror, Scalar(t))));
      match SceneObj(scene, length, landing)
      case Some(s) => Some(ColorAt(s, landing))
      case None => None
    else None
  }

  // ---------------------------------------------------------------------
  // Pixels

  /** The primary ray stopped short of the depth on a sphere, which is
      when the mirror ray is cast. */
  predicate Mirrors(r: Renderer, scene: Scene, length: Vec3 -> real, x: nat, y: nat)
    requires InFrame(r, length, x, y)
  {
    var obj := SceneObj(scene, length, Collision(r, scene, length, x, y));
    obj.Some? && obj.value.Sphere? && PrimaryDistance(r, scene, length, x, y) < r.depth
  }

  /** A pixel is defined when it is in frame and, if the mirror ray is cast,
      the collision point is not the sphere's centre (where the normal has
      no direction). */
  ghost predicate PixelDefined(r: Renderer, scene: Scene, length: Vec3 -> real, x: nat, y: nat) {
    && InFrame(r, length, x, y)
    && (Mirrors(r, scene, length, x, y)
        ==> Collision(r, scene, length, x, y) != SceneObj(scene, length, Collision(r, scene, length, x, y)).value.center)
  }

  /** The colour the pixel ends with: the mirror colour when a mirror ray
      is cast and lands on a surface, the base colour otherwise. */
  function PixelColor(r: Renderer, scene: Scene, length: Vec3 -> real, x: nat, y: nat): Color
    requires PixelDefined(r, scene, length, x, y)
  {
    var collision := Collision(r, scene, length, x, y);
    var base := BaseColor(scene, length, collision);
    if Mirrors(r, scene, length, x, y) then
      var o := ReflectionColor(scene, length, PrimaryRay(r, length, x, y).direction, collision,
                               SceneObj(scene, length, collision).value.center);
      if o.Some? then o.value else base
    else base
  }

  /** The value recorded for pixel (x, y). */
  function Pixel(r: Renderer, scene: Scene, length: Vec3 -> real, x: nat, y: nat): PixelValue
    requires PixelDefined(r, scene, length, x, y)
  {
    var collision := Collision(r, scene, length, x, y);
    NewPixelValue(PrimaryDistance(r, scene, length, x, y), InShadow(scene, length, collision),
                  PixelColor(r, scene, length, x, y))
  }

  /** The pixel colour differs from the base colour only through a mirror
      ray that was cast, stayed within the reflection distance and landed
      on a surface; when all of that happens the mirror colour is used. */
  lemma ReflectionRule(r: Renderer, scene: Scene, length: Vec3 -> real, x: nat, y: nat)
    requires PixelDefined(r, scene, length, x, y)
    ensures var collision := Collision(r, scene, length, x, y);
            PixelColor(r, scene, length, x, y) != BaseColor(scene, length, collision)
            ==> && SceneObj(scene, length, collision).Some?
                && SceneObj(scene, length, collision).value.Sphere?
                && PrimaryDistance(r, scene, length, x, y) < r.depth
                && ReflectionColor(scene, length, PrimaryRay(r, length, x, y).direction, collision,
                                   SceneObj(scene, length, collision).value.center).Some?
    ensures var collision := Collision(r, scene, length, x, y);
            Mirrors(r, scene, length, x, y)
            ==> var o := ReflectionColor(scene, length, PrimaryRay(r, length, x, y).direction, collision,
                                         SceneObj(scene, length, collision).value.center);
                o.Some? ==> PixelColor(r, scene, length, x, y) == o.value
    ensures !Mirrors(r, scene, length, x, y)
            ==> PixelColor(r, scene, length, x, y) == BaseColor(scene, length, Collision(r, scene, length, x, y))
  {
  }

  /** The recorded depth lies in `[0.5, depth / 2 + 0.5]`, is exactly half
      a unit above that bound only when the ray ran out, and the shadow
      flag is the light march's verdict at the collision point. */
  lemma PixelFields(r: Renderer, scene: Scene, length: Vec3 -> real, x: nat, y: nat)
    requires PixelDefined(r, scene, length, x, y)
    requires 0.0 < r.depth
    ensures var pv := Pixel(r, scene, length, x, y);
            && 0.5 <= pv.distance <= r.depth / 2.0 + 0.5
            && (pv.distance < r.depth / 2.0 + 0.5 <==> PrimaryDistance(r, scene, length, x, y) < r.depth)
            && pv.shadow == InShadow(scene, length, Collision(r, scene, length, x, y))
  {
    var d := PrimaryDistance(r, scene, length, x, y);
    MarchBounds(PrimaryRay(r, length, x, y), SdfOf(scene, length), r.depth);
    NormalizedDepthRange(d, r.depth);
    NormalizedDepthMonotone(d, r.depth);
  }

  /** A pixel whose primary ray passes no surface within the depth records
      the depth itself, casts no mirror ray, and, when the far-plane end of
      the ray is clear of every surface, is white. */
  lemma MissPixel(r: Renderer, scene: Scene, length: Vec3 -> real, x: nat, y: nat)
    requires PixelDefined(r, scene, length, x, y)
    requires forall t :: 0.0 <= t < r.depth ==> HitEpsilon <= SceneSdf(scene, length, PrimaryRay(r, length, x, y).At(t))
    ensures PrimaryDistance(r, scene, length, x, y) == r.depth
    ensures Pixel(r, scene, length, x, y).distance == r.depth / 2.0 + 0.5
    ensures !Mirrors(r, scene, length, x, y)
    ensures HitTolerance <= SceneSdf(scene, length, PrimaryRay(r, length, x, y).At(r.depth))
            ==> PixelColor(r, scene, length, x, y) == White
  {
    var ray, sdf := PrimaryRay(r, length, x, y), SdfOf(scene, length);
    forall t | 0.0 <= t < r.depth
      ensures HitEpsilon <= sdf(ray.At(t))
    {
      assert sdf(ray.At(t)) == SceneSdf(scene, length, ray.At(t));
    }
    MarchMiss(ray, sdf, r.depth);
    assert PrimaryDistance(r, scene, length, x, y) == r.depth;
    assert Collision(r, scene, length, x, y) == ray.At(r.depth);
  }

  // ---------------------------------------------------------------------
  // The render loops

  /** The body of the per-pixel loop, step by step. */
  method RenderPixel(r: Renderer, scene: Scene, length: Vec3 -> real, x: nat, y: nat) returns (pv: PixelValue)
    requires PixelDefined(r, scene, length, x, y)
    ensures pv == Pixel(r, scene, length, x, y)
  {
    var sdf := SdfOf(scene, length);
    var primaryRay := PrimaryRay(r, length, x, y);
    var direction := primaryRay.direction;
    var distance := March(primaryRay, sdf, r.depth);
    var collisionPoint := primaryRay.At(distance);
    assert collisionPoint == Collision(r, scene, length, x, y);
    var collisionObj := SceneObj(scene, length, collisionPoint);
    var pixiColor := if collisionObj.Some? then ColorAt(collisionObj.value, collisionPoint) else White;
    assert pixiColor == BaseColor(scene, length, collisionPoint);

    var lightRay := LightRay(length, collisionPoint);
    var lightDistance := March(lightRay, sdf, LightDistance);
    var inShadow := lightDistance < LightDistance;
    assert inShadow == InShadow(scene, length, collisionPoint);

    if collisionObj.Some? && collisionObj.value.Sphere? && distance < r.depth {
      assert Mirrors(r, scene, length, x, y);
      var sphere := collisionObj.value;
      var sphereNormal := SphereNormal(length, collisionPoint, sphere.center);
      var reflectionDirection := MirrorDirection(length, direction, sphereNormal);
      var ray := MirrorRay(collisionPoint, reflectionDirection);
      var reflectionDistance := March(ray, sdf, ReflectionDistance);
      ghost var o := ReflectionColor(scene, length, direction, collisionPoint, sphere.center);
      if reflectionDistance < ReflectionDistance {
        var reflectionLanding := Add(collisionPoint, Vector(Mul(reflectionDirection, Scalar(reflectionDistance))));
        var reflectionObject := SceneObj(scene, length, reflectionLanding);
        if reflectionObject.Some? {
          pixiColor := ColorAt(reflectionObject.value, reflectionLanding);
        }
        assert o.Some? <==> reflectionObject.Some?;
      } else {
        assert o.None?;
      }
      assert pixiColor == PixelColor(r, scene, length, x, y);
    } else {
      assert !Mirrors(r, scene, length, x, y);
      assert pixiColor == PixelColor(r, scene, length, x, y);
    }
    pv := NewPixelValue(distance, inShadow, pixiColor);
  }

  /** Every pixel of the frame is defined. */
  ghost predicate FrameDefined(r: Renderer, scene: Scene, length: Vec3 -> real) {
    forall x: nat, y: nat :: x < r.width && y < r.height ==> PixelDefined(r, scene, length, x, y)
  }

  /** Every pixel of row `y` is defined. */
  ghost predicate RowDefined(r: Renderer, scene: Scene, length: Vec3 -> real, y: nat) {
    forall x: nat :: x < r.width ==> PixelDefined(r, scene, length, x, y)
  }

  /** The pixel values of row `y`, left to right. */
  ghost function ImageRow(r: Renderer, scene: Scene, length: Vec3 -> real, y: nat): seq<PixelValue>
    requires RowDefined(r, scene, length, y)
  {
    seq(r.width, x requires 0 <= x < r.width => Pixel(r, scene, length, x, y))
  }

  /** The rendered image: one row per pixel row, top to bottom. */
  ghost function Image(r: Renderer, scene: Scene, length: Vec3 -> real): seq<seq<PixelValue>>
    requires FrameDefined(r, scene, length)
  {
    seq(r.height, y requires 0 <= y < r.height => ImageRow(r, scene, length, y))
  }

  /** The image has `height` rows of `width` pixels, and its entry in row
      `y` and column `x` is the value of pixel (x, y). */
  lemma ImagePixels(r: Renderer, scene: Scene, length: Vec3 -> real)
    requires FrameDefined(r, scene, length)
    ensures |Image(r, scene, length)| == r.height
    ensures forall y :: 0 <= y < r.height ==> |Image(r, scene, length)[y]| == r.width
    ensures forall y: nat, x: nat :: y < r.height && x < r.width
              ==> Image(r, scene, length)[y][x] == Pixel(r, scene, length, x, y)
  {
  }

  /** Extending a prefix of `s` by the next element of `s`. */
  lemma PrefixStep<T>(s: seq<T>, n: nat, prefix: seq<T>, next: T)
    requires n < |s| && prefix == s[..n] && next == s[n]
    ensures prefix + [next] == s[..n + 1]
  {
  }

  /** The inner loop of `Renderer#render`: the pixel values of row `y`
      from left to right. */
  method RenderRow(r: Renderer, scene: Scene, length: Vec3 -> real, y: nat) returns (row: seq<PixelValue>)
    requires RowDefined(r, scene, length, y)
    ensures row == ImageRow(r, scene, length, y)
  {
    row := [];
    var x := 0;
    while x < r.width
      invariant x <= r.width
      invariant row == ImageRow(r, scene, length, y)[..x]
    {
      var pv := RenderPixel(r, scene, length, x, y);
      PrefixStep(ImageRow(r, scene, length, y), x, row, pv);
      row := row + [pv];
      x := x + 1;
    }
  }

  /** `Renderer#render`: the rows of the image, built one row at a time. */
  method Render(r: Renderer, scene: Scene, length: Vec3 -> real) returns (rows: seq<seq<PixelValue>>)
    requires FrameDefined(r, scene, length)
    ensures rows == Image(r, scene, length)
  {
    rows := [];
    var y := 0;
    while y < r.height
      invariant y <= r.height
      invariant rows == Image(r, scene, length)[..y]
    {
      var row := RenderRow(r, scene, length, y);
      PrefixStep(Image(r, scene, length), y, rows, row);
      rows := rows + [row];
      y := y + 1;
    }
  }
}
