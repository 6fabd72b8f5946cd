/** A scene is a non-empty list of surfaces. Its distance is the least
    distance of any surface, and the surface hit at a point is the first
    surface in list order attaining that least distance, provided it is
    below the hit tolerance 0.1. */
module Scenes {
  import opened Vectors
  import opened Surfaces

  datatype Option<T> = None | Some(value: T)

  type Scene = s: seq<Surface> | |s| > 0 witness [Plane(White, White)]

  /** A point closer than this to the scene counts as lying on a surface
      when the scene is asked for the surface or colour there. */
  const HitTolerance: real := 0.1

  function Min(a: real, b: real): real {
    if a <= b then a else b
  }

  /** The least signed distance of any surface of the scene. */
  function SceneSdf(scene: Scene, length: Vec3 -> real, p: Vec3): (d: real)
    ensures forall i :: 0 <= i < |scene| ==> d <= Sdf(scene[i], length, p)
    ensures exists i :: 0 <= i < |scene| && d == Sdf(scene[i], length, p)
    decreases |scene|
  {
    if |scene| == 1 then Sdf(scene[0], length, p)
    else
      var rest := SceneSdf(scene[1..], length, p);
      assert forall i :: 1 <= i < |scene| ==> scene[i] == scene[1..][i - 1];
      Min(Sdf(scene[0], length, p), rest)
  }

  /** The scene's distance as a function of the point, for marching. */
  function SdfOf(scene: Scene, length: Vec3 -> real): Vec3 -> real {
    p => SceneSdf(scene, length, p)
  }

  /** Surface `k` is the first in list order whose distance at `p` is the
      scene's least distance. */
  ghost predicate FirstNearest(scene: Scene, length: Vec3 -> real, p: Vec3, k: int) {
    && 0 <= k < |scene|
    && Sdf(scene[k], length, p) == SceneSdf(scene, length, p)
    && forall j :: 0 <= j < k ==> SceneSdf(scene, length, p) < Sdf(scene[j], length, p)
  }

  /** The index `min_by` selects: the first surface of least distance
      (a later surface replaces the current choice only when strictly
      nearer). */
  function ArgMin(scene: Scene, length: Vec3 -> real, p: Vec3): (k: nat)
    ensures FirstNearest(scene, length, p, k)
    decreases |scene|
  {
    if |scene| == 1 then 0
    else
      var k := ArgMin(scene[1..], length, p);
      assert forall i :: 1 <= i < |scene| ==> scene[i] == scene[1..][i - 1];
      if Sdf(scene[0], length, p) <= Sdf(scene[1 + k], length, p) then 0 else 1 + k
  }

  /** At most one index is the first nearest one. */
  lemma FirstNearestUnique(scene: Scene, length: Vec3 -> real, p: Vec3, k: int, m: int)
    requires FirstNearest(scene, length, p, k)
    requires FirstNearest(scene, length, p, m)
    ensures k == m
  {
  }

  /** The surface hit at `p`, or nothing when every surface is at least
      the hit tolerance away. */
  function SceneObj(scene: Scene, length: Vec3 -> real, p: Vec3): (o: Option<Surface>)
    ensures o.None? <==> HitTolerance <= SceneSdf(scene, length, p)
    ensures o.Some? ==> exists k :: FirstNearest(scene, length, p, k) && o.value == scene[k]
  {
    var k := ArgMin(scene, length, p);
    if Sdf(scene[k], length, p) < HitTolerance then Some(scene[k]) else None
  }

  /** The colour at `p` of the first nearest surface when it is within
      the hit tolerance, white otherwise. */
  function SceneColor(scene: Scene, length: Vec3 -> real, p: Vec3): (c: Color)
    ensures SceneSdf(scene, length, p) < HitTolerance
            ==> exists k :: FirstNearest(scene, length, p, k) && c == ColorAt(scene[k], p)
    ensures HitTolerance <= SceneSdf(scene, length, p) ==> c == White
  {
    var k := ArgMin(scene, length, p);
    if Sdf(scene[k], length, p) < HitTolerance then ColorAt(scene[k], p) else White
  }

  /** The colour at a point is the colour of the surface hit there, or
      white when no surface is hit. */
  lemma ColorIsObjColor(scene: Scene, length: Vec3 -> real, p: Vec3)
    ensures SceneObj(scene, length, p).Some?
            ==> SceneColor(scene, length, p) == ColorAt(SceneObj(scene, length, p).value, p)
    ensures SceneObj(scene, length, p).None? ==> SceneColor(scene, length, p) == White
  {
    var o, c := SceneObj(scene, length, p), SceneColor(scene, length, p);
    if o.Some? {
      var k :| FirstNearest(scene, length, p, k) && o.value == scene[k];
      var m :| FirstNearest(scene, length, p, m) && c == ColorAt(scene[m], p);
      FirstNearestUnique(scene, length, p, k, m);
    }
  }

  /** Among surfaces at the same least distance the earliest wins. */
  lemma TieGoesToEarlier(scene: Scene, length: Vec3 -> real, p: Vec3, i: int, j: int)
    requires 0 <= i < j < |scene|
    requires Sdf(scene[i], length, p) == Sdf(scene[j], length, p) == SceneSdf(scene, length, p)
    ensures ArgMin(scene, length, p) <= i
  {
  }

  /** The scene distance, the least of 1-Lipschitz distances, is
      1-Lipschitz too. */
  lemma SceneSdfStep(scene: Scene, length: Vec3 -> real, p: Vec3, q: Vec3)
    requires IsLength(length)
    ensures SceneSdf(scene, length, p) <= SceneSdf(scene, length, q) + length(Sub(p, Vector(q)))
  {
    var i :| 0 <= i < |scene| && SceneSdf(scene, length, q) == Sdf(scene[i], length, q);
    SdfStep(scene[i], length, p, q);
  }

  lemma SceneIsLipschitz(scene: Scene, length: Vec3 -> real)
    requires IsLength(length)
    ensures Lipschitz(SdfOf(scene, length), length)
  {
    forall p, q
      ensures SdfOf(scene, length)(p) <= SdfOf(scene, length)(q) + length(Sub(p, Vector(q)))
    {
      SceneSdfStep(scene, length, p, q);
    }
  }

  /** A point within the marching hit threshold 0.01 always has a surface,
      since that threshold is below the hit tolerance. */
  lemma NearPointHasObject(scene: Scene, length: Vec3 -> real, p: Vec3)
    requires SceneSdf(scene, length, p) < 0.01
    ensures SceneObj(scene, length, p).Some?
  {
  }

  /** A single-surface scene has that surface's distance, and hits it
      exactly within the tolerance. */
  lemma SingletonScene(s: Surface, length: Vec3 -> real, p: Vec3)
    ensures SceneSdf([s], length, p) == Sdf(s, length, p)
    ensures SceneObj([s], length, p) == if Sdf(s, length, p) < HitTolerance then Some(s) else None
  {
  }
}
