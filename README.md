# SDF ray marcher — a Dafny model

This project models the renderer in `main.rb`, a ray marcher over signed-distance fields (SDFs). Coordinates are exact reals, and it proves the following:

- **Vectors** (`vec3.dfy`): `Vec3` arithmetic, where each operator takes either a vector or a scalar operand. `length` and `normalize` are abstract. The file also has the projection and the mirror formula used for reflections.
- **Surfaces** (`surfaces.dfy`): the two primitives, each with a distance and a colour.
  - A sphere's distance is its distance to the centre minus its radius. It has one fixed colour.
  - The ground plane's distance is `|y - 4|`. Its colour is a checkerboard picked by the parity of `floor(x)` and `floor(z)`.
- **Scenes** (`scene.dfy`): a non-empty list of surfaces.
  - The scene's distance is the least distance of any surface.
  - The surface hit at a point is the first surface in list order that attains that least distance, but only if it is below the hit tolerance 0.1.
  - Otherwise no surface is hit there, and the colour is white.
- **Rays** (`ray.dfy`): `Ray#march`, the sphere-tracing loop.
  - It runs over any distance field from points to reals.
  - For a true signed distance (one that changes no faster than the point moves, which both surface distances and the scene distance are), no step skips over a surface: every point before the reported distance is strictly outside.
  - It is a method with a `while` loop, proved against the recursive function `MarchFrom`.
  - It terminates because every step that does not stop the march moves forward by at least 0.01.
- **Pixels** (`pixel.dfy`): the stored value of a pixel.
  - The depth is normalised to `d / 2 + 0.5`.
  - The colour part of `chunky_val` copies the stored colour into a mutable buffer (the class `ColorBuffer`) and halves every channel when the pixel is in shadow.
- **Rendering** (`renderer.dfy`): `Renderer#render`.
  - The per-pixel body is the method `RenderPixel`. It computes the far-plane point, then marches the primary ray, the light ray and, for a sphere hit, the mirror ray.
  - The two nested loops are `RenderRow` and `Render`. Each is proved against the spec functions `Pixel`, `ImageRow` and `Image`.
- **Scenarios** (`scenarios.dfy`): a worked example. A ray along +z from the origin towards a sphere of radius 2 centred at (0, 0, 5) stops at distance 3.

**Length.** The Euclidean length is a parameter `length: Vec3 -> real`. It is constrained by the predicate `IsLength`, which says that `length(v)` is the non-negative number whose square is `x² + y² + z²`. Nothing about `length` is assumed beyond that.

**Projection.** The orthogonal projection of `a` onto `b` divides `a·b` by `|b|²`, the squared length of the vector projected onto. That is what makes the residual orthogonal to `b` (`Vectors.ProjectOntoOrthogonal`). The renderer's lambda `proj_a_onto_b` (main.rb:241) divides by `length_squared(a)` instead. The model keeps it as written in `Vectors.ProjAOntoB`, and the per-pixel model uses it: `Rendering.MirrorDirection` mirrors with `ProjAOntoB`, exactly as main.rb:244-250 does. On the renderer's unit vectors the two projections agree, so that direction equals the orthogonal mirror `Vectors.Reflect`, which uses `Vectors.ProjectOnto`. See Findings.

**Shading that follows from the thresholds.** The word "hit" uses two thresholds:
- the march stops when the distance is below 0.01;
- a surface is reported only when the distance is below 0.1.

Because 0.01 < 0.1, every point where a march stops has a surface (`Scenes.NearPointHasObject`). So a primary hit can never fall back to white (`Rendering.PrimaryHitHasObject`).

## Model

| member | source | states |
|---|---|---|
| Vectors.LengthSquared | main.rb:226-230 | the renderer's `length_squared` lambda, `x² + y² + z²`, which is also the argument of `sqrt` at main.rb:11 |
| Vectors.IsLength | main.rb:10-12 | `Vec3#length`: `length(v)` is non-negative and its square is `LengthSquared(v)`, which determines it (`LengthIs`) |
| Vectors.Neg | main.rb:18-20 | negates each component |
| Vectors.Add | main.rb:32-40 | component-wise sum with a vector operand; adds the same number to each component with a scalar operand |
| Vectors.Sub | main.rb:42-50 | component-wise difference with a vector operand; subtracts the same number from each component with a scalar operand |
| Vectors.Mul | main.rb:22-30 | component-wise product with a vector operand; scales each component with a scalar operand |
| Vectors.Scale | main.rb:232-238 | the renderer's `scale` lambda: multiplies each component by the scalar |
| Vectors.Dot | main.rb:215-219 | the renderer's `dot_product` lambda |
| Vectors.Normalize | main.rb:14-16 | divides each component by the length; defined only where the length is non-zero |
| Vectors.ProjAOntoB | main.rb:240-242 | as written: `scale(dot(a, b) / length_squared(a), b)`, defined where `a` is non-zero |
| Vectors.ProjectOnto | main.rb:240-242 | the corrected projection, dividing by `length_squared(b)` |
| Vectors.Reflect | main.rb:244-249 | `a + 2 (proj(a, n) - a)` with the corrected projection |
| Vectors.SubSelfIsZero | main.rb:42-50 | `v - v` is the zero vector |
| Vectors.AddNegIsZero | main.rb:18-40 | `v + (-v)` is the zero vector, and negating twice gives `v` back |
| Vectors.SubIsAddNeg | main.rb:18-50 | subtracting a vector is adding its negation |
| Vectors.ScalarOperandIsSplat | main.rb:22-50 | a scalar operand of `+`, `-`, `*` applies the same number to each component, exactly as the vector `(k, k, k)` would; `v * k` is `scale(k, v)` |
| Vectors.VectorOperandsCommute | main.rb:22-40 | with a vector operand, `+` and `*` work component-wise and commute |
| Vectors.MulScalarUnits | main.rb:22-40 | `v * 1 == v`, `v * 0` is zero, `v + 0 == v` |
| Vectors.LengthFacts | main.rb:10-12 | the length squared is `x² + y² + z²`, and the length is non-negative |
| Vectors.LengthZeroIff | main.rb:10-12 | the length is 0 exactly for the zero vector |
| Vectors.LengthIs | main.rb:10-12 | a non-negative `c` with `c² = x² + y² + z²` is the length |
| Vectors.LagrangeIdentity | main.rb:10-12 | `(a²+b²+c²)(d²+e²+f²) - (ad+be+cf)²` is the sum of the squared cross-product components |
| Vectors.DotSquareBound | main.rb:10-12 | the squared dot product is at most the product of the squared lengths |
| Vectors.CauchySchwarz | main.rb:10-12 | the dot product is at most the product of the lengths |
| Vectors.TriangleInequality | main.rb:10-12 | `length(u + w) <= length(u) + length(w)` |
| Vectors.ComponentBound | main.rb:10-12 | the `y` component lies between `-length(v)` and `length(v)` |
| Vectors.LengthSquaredScaled | main.rb:22-30 | `v * k` has squared length `k²` times that of `v` |
| Vectors.Lipschitz | main.rb:76-94 | a distance field is 1-Lipschitz: at `p` it exceeds its value at `q` by at most `length(p - q)` |
| Vectors.NegPreservesLength | main.rb:18-20 | negation keeps the squared length |
| Vectors.NormalizeIsUnit | main.rb:14-16 | normalising a non-zero vector gives length 1 (and its length was non-zero, so the division is defined) |
| Vectors.NormalizeUnit | main.rb:14-16 | a vector of squared length 1 has length 1, and normalising it returns it unchanged |
| Vectors.SquareMonotone | main.rb:10-12 | for non-negative reals, `a < b` iff `a² < b²`, and `a == b` iff `a² == b²` (why `sqrt` is well defined) |
| Vectors.ProjAOntoBNotOrthogonal | main.rb:240-242 | the as-written projection of (2,0,0) onto (1,0,0) is (0.5,0,0), not (2,0,0); the residual has dot product 1.5 with (1,0,0) |
| Vectors.ProjectOntoOrthogonal | main.rb:240-242 | after the corrected projection onto `b` is subtracted, what remains is orthogonal to `b` |
| Vectors.ProjectionsAgreeOnEqualLengths | main.rb:240-246 | the as-written and corrected projections agree whenever both vectors have the same squared length, as the unit vectors in the renderer do |
| Vectors.ReflectClosedForm | main.rb:244-249 | `a + 2 (proj(a, n) - a)` is `2 k n - a`, where `k n` is the projection |
| Vectors.ReflectKeepsNormalComponent | main.rb:244-249 | mirroring keeps the dot product with the normal |
| Vectors.ReflectPreservesLength | main.rb:244-249 | mirroring keeps the squared length |
| Vectors.ReflectInvolution | main.rb:244-249 | mirroring twice about the same normal gives the vector back |
| Surfaces.Sdf | main.rb:76-94 | a sphere's distance is `length(p - center) - radius`; the plane's distance is `abs(p.y - 4)` |
| Surfaces.ColorAt | main.rb:80-102 | a sphere gives its stored colour; the plane gives the light tile where `floor(x)` and `floor(z)` have the same parity, and the dark tile otherwise |
| Surfaces.SphereSdfAtCenter | main.rb:76-78 | a sphere's distance at its centre is `-radius` |
| Surfaces.SphereSdfSign | main.rb:76-78 | for a non-negative radius, the distance is negative exactly inside the sphere and zero exactly on it (compared by squared distance to the centre) |
| Surfaces.SdfStep | main.rb:76-94 | moving from `q` to `p` raises either surface's distance by at most `length(p - q)` (the triangle inequality for the sphere, the height bound for the plane) |
| Surfaces.SdfLipschitz | main.rb:76-94 | both surface distances are true signed distances: they differ at two points by at most the distance between the points |
| Surfaces.SphereColorIgnoresPoint | main.rb:80-82 | a sphere's colour is its stored colour, at every point |
| Surfaces.PlaneSdfNonNegative | main.rb:89-94 | the plane's distance is never negative, is 0 exactly at `y == 4`, and ignores x and z |
| Surfaces.LightTile | main.rb:97 | the tile under `p` is light when `floor(x)` and `floor(z)` are both even or both odd |
| Surfaces.LightTileIsEvenSum | main.rb:96-102 | `floor(x)` and `floor(z)` have the same parity exactly when their sum is even |
| Surfaces.PlaneColorByParity | main.rb:96-102 | the plane takes the light tile when `floor(x) + floor(z)` is even, and the dark tile otherwise |
| Surfaces.TileShifts | main.rb:96-102 | a unit shift in x, or in z, flips the tile kind; a shift in both keeps it |
| Surfaces.PlaneColorShiftX | main.rb:96-102 | the plane colour after a unit x shift is the other tile colour; after a diagonal shift it is the same colour |
| Surfaces.CheckerboardSamples | main.rb:96-102 | (0.5,h,0.5) is light, (1.5,h,0.5) is dark, (1.5,h,1.5) is light; for distinct tile colours the two neighbouring tiles differ |
| Scenes.SceneSdf | main.rb:116-118 | the scene distance is at most every surface's distance and equal to one of them |
| Scenes.ArgMin | main.rb:130 | the selected index is the first surface in list order with the least distance; every earlier surface is strictly farther |
| Scenes.FirstNearestUnique | main.rb:130 | at most one index is the first nearest, so the selection is determined |
| Scenes.SceneObj | main.rb:129-134 | no surface exactly when the least distance is at least 0.1; otherwise the first nearest surface |
| Scenes.SceneColor | main.rb:120-127 | below 0.1, the colour of the first nearest surface at the point; otherwise white |
| Scenes.ColorIsObjColor | main.rb:120-134 | `color(p)` is `obj(p).color(p)` when `obj(p)` is a surface, and white when it is none |
| Scenes.TieGoesToEarlier | main.rb:130 | when two surfaces tie at the least distance, the earlier one (or one before it) is chosen |
| Scenes.NearPointHasObject | main.rb:129-134 | a point closer than 0.01 to the scene always has a surface |
| Scenes.SceneSdfStep | main.rb:116-118 | the scene distance, a least distance of 1-Lipschitz distances, rises by at most the distance moved |
| Scenes.SceneIsLipschitz | main.rb:116-118 | the scene distance as a field is 1-Lipschitz |
| Scenes.SingletonScene | main.rb:116-134 | a one-surface scene has that surface's distance, and hits it exactly within 0.1 |
| Rays.Ray.At | main.rb:148 | the point `origin + direction * t` sampled by the march |
| Rays.BudgetShrinks | main.rb:147-152 | a step that does not stop the march lowers `floor(100 (max - t))`, which is non-negative while `t < max` |
| Rays.MarchFrom | main.rb:147-154 | the continued march reports at most the limit, never less than where it resumed (unless it reports the limit), and a point within 0.01 of a surface whenever it reports less than the limit |
| Rays.MarchResult | main.rb:145-155 | the value `Ray#march` returns: the march continued from `traversed = 0` |
| Rays.March | main.rb:145-155 | the loop returns the march value `MarchResult`, which is at most the limit and a hit when below it |
| Rays.MarchBounds | main.rb:145-155 | the result is at most `max_distance`, and non-negative when `max_distance >= 0` |
| Rays.MarchHit | main.rb:148-150 | a result below the limit is a point whose scene distance is below 0.01 |
| Rays.AtZero | main.rb:148 | the ray point at distance 0 is the origin |
| Rays.MarchFromSurface | main.rb:146-150 | starting within 0.01 of a surface with a positive limit returns 0 |
| Rays.MarchFromMiss | main.rb:147-154 | if no point from the current distance up to the limit is within 0.01 of a surface, the limit is returned |
| Rays.MarchMiss | main.rb:145-155 | a ray that passes no surface within the limit reports the limit |
| Rays.MarchNoRoom | main.rb:146-154 | a non-positive limit is returned as is |
| Rays.AlongUnitRay | main.rb:148 | along a unit direction, the points at `t <= s` are `s - t` apart |
| Rays.StepPassesNoSurface | main.rb:147-152 | with a 1-Lipschitz field and a unit direction, every point skipped by a step from `t` is strictly outside every surface |
| Rays.StepsSafe | main.rb:147-152 | no step from any point of the ray skips a point on or inside a surface |
| Rays.LipschitzStepsSafe | main.rb:147-152 | a 1-Lipschitz field and a unit direction make every step safe |
| Rays.MarchFromPassesNoSurface | main.rb:147-154 | if every point before `t` is outside, every point before the continued march's result is outside |
| Rays.MarchPassesNoSurface | main.rb:145-155 | with a 1-Lipschitz field and a unit direction, every point before the reported distance is strictly outside every surface |
| Rays.StepsBounded | main.rb:147-153 | the loop takes at most `floor(100 (max - t)) + 1` samples, so it always terminates |
| Pixels.NormalizedDepth | main.rb:303 | the stored depth `d / 2 + 0.5` |
| Pixels.Shade | main.rb:308-315 | closed form of the shaded copy: every channel times 0.5 in shadow, the colour itself otherwise |
| Pixels.NewPixelValue | main.rb:302-306 | the value keeps the shadow flag and the colour |
| Pixels.DepthRoundTrip | main.rb:303 | the marched distance can be recovered exactly from the stored depth `d / 2 + 0.5` |
| Pixels.NormalizedDepthMonotone | main.rb:303 | the depth normalisation keeps the order of distances, in both directions |
| Pixels.NormalizedDepthRange | main.rb:303 | a distance in `[0, depth]` is stored in `[0.5, depth / 2 + 0.5]` |
| Pixels.ColorBuffer.constructor | main.rb:309 | the copy starts with the stored colour's channels |
| Pixels.ColorBuffer.Halve | main.rb:311-315 | each channel of the copy becomes half of what it was |
| Pixels.ShadedColor | main.rb:308-315 | the result is the stored colour with every channel halved when in shadow, unchanged otherwise; the stored colour is a value and is left untouched |
| Pixels.ShadeHalves | main.rb:311-315 | in shadow each channel is exactly half of the stored channel; out of shadow the colour is unchanged |
| Pixels.ShadeStaysInRange | main.rb:311-315 | shading keeps channels in `[0, 255]` and never brightens them |
| Rendering.LightDirection | main.rb:168 | the light direction `normalize(1,1,1)` is a unit vector |
| Rendering.FarPlaneWidth | main.rb:182-183 | `depth * 1.5 * (width / height)`, the far plane's width from the aspect ratio |
| Rendering.FarPlaneHeight | main.rb:184 | `depth * 1.5` |
| Rendering.AxisCoordinate | main.rb:192-193 | the far-plane coordinate `w * (i / n) - w / 2` of pixel `i` of `n` |
| Rendering.FarPlanePoint | main.rb:182-195 | the far-plane point of pixel (x, y): `w (x / width) - w / 2`, `h (y / height) - h / 2`, `depth`, for the far plane's width `w` and height `h` |
| Rendering.AxisBounds | main.rb:191-194 | along an axis of positive extent `w`, pixel coordinates lie in `[-w/2, w/2)`, and the middle pixel of an even count is 0 |
| Rendering.FarPlaneBounds | main.rb:182-195 | far-plane points of in-frame pixels span the far plane's width and height, centred on the view axis, at z = depth |
| Rendering.PrimaryRay | main.rb:196-198 | the primary ray starts at the origin and has a unit direction |
| Rendering.PrimaryDistance | main.rb:199 | the primary ray's march with the depth as limit |
| Rendering.Collision | main.rb:200 | the point at the marched distance along the primary ray |
| Rendering.BaseColor | main.rb:201-202 | the colour of the surface hit at the collision point, white without one |
| Rendering.PrimaryHitHasObject | main.rb:199-202 | a primary distance below the depth gives a surface at the collision point, and the base colour is that surface's colour |
| Rendering.PrimaryRayPassesNoSurface | main.rb:196-200 | every point of the primary ray before the collision point is strictly outside the scene |
| Rendering.LightRay | main.rb:204 | starts at `collision - light * 0.1` and runs along `-light` |
| Rendering.InShadow | main.rb:205-206 | the light ray's march with limit 10 stops below 10 |
| Rendering.ShadowMeansOccluder | main.rb:204-206 | in shadow, the light ray met a surface within distance 10; out of shadow, the light march ran out at exactly 10 (both directions) |
| Rendering.SphereNormal | main.rb:212 | the sphere normal off the centre is a unit vector |
| Rendering.MirrorDirection | main.rb:244-250 | the mirror direction, computed with the as-written projection, is a unit vector and equals the orthogonal mirror `Reflect` of the reversed primary direction |
| Rendering.MirrorDirectionIsReflection | main.rb:240-250 | the mirror direction keeps the angle to the normal; mirroring it back gives the reversed primary direction; the as-written projection equals the orthogonal one here |
| Rendering.MirrorRay | main.rb:252-253 | starts at `collision + 0.01 m` and runs along the mirror direction `m` |
| Rendering.ReflectionColor | main.rb:252-262 | when the mirror march stops below 10 and the landing point has a surface, the result is that surface's colour at the landing point; otherwise there is none. A colour also means the mirror march stopped within 0.01 of a surface |
| Rendering.Mirrors | main.rb:209-210 | the mirror ray is cast: the collision point has a surface, it is a sphere, and the primary distance is below the depth |
| Rendering.PixelColor | main.rb:201-262 | the mirror colour when a mirror ray is cast and lands on a surface, the base colour otherwise |
| Rendering.Pixel | main.rb:291 | the pixel value built from the primary distance, the shadow flag and the pixel colour |
| Rendering.ReflectionRule | main.rb:209-262 | the pixel colour differs from the base colour only for a sphere hit before the depth whose mirror ray lands on a surface; then the mirror colour is used; without a mirror ray the base colour is kept |
| Rendering.PixelFields | main.rb:291 | the stored depth lies in `[0.5, depth/2 + 0.5]` and is below the top exactly on a hit; the shadow flag is the light march's verdict |
| Rendering.MissPixel | main.rb:199-206 | a primary ray with no surface within 0.01 along it records the depth, casts no mirror ray, and is white when its end point is clear by 0.1 |
| Rendering.RenderPixel | main.rb:191-291 | the per-pixel body computes exactly `Pixel(x, y)` |
| Rendering.ImageRow | main.rb:189-293 | row `y`: `Pixel(x, y)` for `x` from 0 to `width - 1`, in that order |
| Rendering.Image | main.rb:187-295 | `ImageRow(y)` for `y` from 0 to `height - 1`, in that order |
| Rendering.ImagePixels | main.rb:187-295 | the image has `height` rows of `width` values, and entry (y, x) is `Pixel(x, y)` |
| Rendering.RenderRow | main.rb:189-293 | the inner loop builds row `y` of the image |
| Rendering.Render | main.rb:181-296 | `render` returns the image |
| Scenarios.SphereOnAxis | main.rb:76-78 | the sphere of radius 2 at (0,0,5) is 3 from the origin and touches (0,0,3) |
| Scenarios.MarchOnAxis | main.rb:145-155 | with those two distances, the march along +z stops at 3 |
| Scenarios.StraightRayHitsSphere | main.rb:145-155 | a ray along +z from the origin, limited to 10, hits that sphere at distance 3 |
| Scenarios.FarSphereIsMissed | main.rb:145-155 | in a one-sphere scene, a ray starting more than `max + radius` from the centre reports `max`, for any limit of at least 0.01 |
| Scenarios.TinyLimitHitsAtStart | main.rb:145-155 | with a limit below 0.01 that fails: a sphere of radius 2 at (0,0,2.005) is farther than `0.004 + 2` from the origin, yet the march with limit 0.004 reports 0 |
| Scenarios.TinyLimitMarch | main.rb:145-155 | given that distance, the march with limit 0.004 reports a hit at 0 |

## Left out

- `Main#initialize` and `Main#run` (main.rb:325-349) are left out. They build the PNG image with ChunkyPNG, save it to a file and print a message, which is all I/O and foreign library code.
- The `ChunkyPNG::Color.rgb` call in `chunky_val` (main.rb:317-321) is left out, together with its `.to_i` truncation and its `- distance * 0.0` term. The call is a foreign library call, and the term is multiplied by zero. `ShadedColor` returns the shaded colour before that conversion.
- `sqrt` is not computed. `length` is an abstract function, characterised exactly by `IsLength`.
- IEEE floating point is not modelled: rounding, NaN and infinities are out, and all arithmetic is exact on reals. The source mixes integers and floats (for example depth 20 and floor height 4), which does not change any value computed here.
- Normalising the zero vector gives NaN in the source. In the model it is a precondition instead:
  - `InFrame` demands a non-zero depth, which makes the far-plane point non-zero.
  - `PixelDefined` demands that a sphere hit is not at the sphere's centre.
- The "Invalid type" errors of the vector operators (main.rb:28, 38, 48) cannot occur in the model. The closed `Operand` type admits only vectors and scalars.
- The empty stubs `shadow_at_point` and `sphere_reflection` (main.rb:171-177) are left out, because they have no behaviour.
- The commented-out multi-bounce code (main.rb:264-286) is left out.
- The local lambda `length` in `render` (main.rb:222-224) is never called, so it is left out.
- The hard-coded scene of `Scene#initialize` (main.rb:108-114) is left out. The scene is a parameter: any non-empty list of surfaces.
- `Scene#sdfs` can be reassigned through its accessor, but only the commented-out code does so, so that is not modelled.
- `Color` objects are values in the model. The source mutates a colour only on the fresh copy made in `chunky_val`, and that copy is the class `ColorBuffer`.
- The renderer's origin, field of view and light direction (main.rb:166-168) are constants. The source sets them once in the constructor and never changes them.
- Scenarios.FarSphereIsMissed: requires a limit of at least 0.01. With a smaller limit, a start point within 0.01 of the sphere already counts as a hit, even when it is more than `max + radius` from the centre (`Scenarios.TinyLimitHitsAtStart`).
- `length` and the distance field are functions on values, so the model does not capture aliasing between surfaces or vectors.

## Findings

| source | as written | input that shows it | evidently intended | confidence | as-written member | corrected member |
|---|---|---|---|---|---|---|
| main.rb:240-242 | `proj_a_onto_b` divides `a·b` by the squared length of `a`, the vector being projected | a = (2,0,0), b = (1,0,0): it returns (0.5,0,0), and the residual (1.5,0,0) is not orthogonal to b | divide by the squared length of `b`, giving (2,0,0) | not executed; in the renderer both vectors are unit, so `render` is unaffected (`Rendering.MirrorDirectionIsReflection`) | Vectors.ProjAOntoB, Vectors.ProjAOntoBNotOrthogonal | Vectors.ProjectOnto, Vectors.ProjectOntoOrthogonal |
