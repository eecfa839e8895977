# A verified model of a one-sphere ray caster

`sketch.js` is a p5.js sketch that renders one frame of a ray-traced scene. An eye sits at
(0, 0, -5). It looks through a 480 by 480 canvas that covers a 10 by 10 wall at z = 10. In
between is a magenta unit sphere at the origin, lit by a white point light at (-10, 10, -10).
For every pixel the sketch does the following:

- casts a ray from the eye through the pixel's point on the wall;
- solves the ray-sphere quadratic;
- keeps the nearest intersection in front of the eye;
- shades that point with the Phong reflection model (ambient, diffuse and specular terms);
- writes the colour, scaled to 0-255, into the canvas.

Pixels whose ray misses the sphere keep the white background.

This project models that core in Dafny over the real numbers and proves what each
operation promises:

- the vector and colour algebra and the in-place `normalize`;
- the ray, the intersection list with `at` and `hit`;
- the sphere's `intersect` and `normal_at`;
- the material record, the light record and `lighting`;
- the pixel loop of `draw`.

The modules, one file each, follow the source's classes:

- `Colors`, `Vectors`, `Rays`, `Intersections`, `Materials`, `Spheres` and `Lights`;
- `Quadratics`, for the quadratic that `intersect` solves;
- `RealMath`, for the square root and the helper facts of real arithmetic;
- `Wrappers`, for `Option`, the model's `null`;
- `Render`, for `draw`.

Operations that change state or loop in the source are methods:

- `normalize` overwrites a vector in place. It is the class `Vectors.Vector` with method `Normalize`.
- `normal_at` and `lighting` each build a fresh `Vector` and normalise it in place (`Spheres.Sphere.NormalAt`, `Lights.Lighting`).
- `hit` is a loop over the list that updates a local candidate.
- `intersect` pushes onto a local list.
- `draw` writes pixels into a canvas. Here it is a method over an `array2`.

The rest are functions with lemmas. `Math.sqrt` and `Math.pow` are parameters of the operations that use them:

- `sqrt` is constrained by `RealMath.IsSqrt`. It gives a non-negative root whose square is its argument.
- `pow` is unconstrained.

## Model

| member | source | states |
|---|---|---|
| Colors.Neutrals | sketch.js:10-22 | black is neutral for `add` and white for `hadamard_product`, on both sides |
| Colors.MulScales | sketch.js:15-17 | scaling by 1 is the identity, scaling twice is scaling by the product, and scaling distributes over `add` |
| Vectors.Negation | sketch.js:72-74 | the negation is `mul(v, -1)`, adds to `v` to give zero, and has the same squared length |
| Vectors.DotLinear | sketch.js:45-53 | `dot` is linear in its first argument over `mul` and `sub`, and symmetric |
| Vectors.SquaredLengthPositive | sketch.js:60-62 | the squared length is positive exactly for the non-zero vectors |
| Vectors.MagnitudePositive | sketch.js:60-62 | a non-zero vector has positive magnitude whose square is its squared length |
| Vectors.NormalizedIsUnit | sketch.js:76-81 | after normalisation the squared length and the magnitude are 1 |
| Vectors.NormalizedKeepsDirection | sketch.js:76-81 | the normalised vector is `v` times `1/magnitude`, and its component along `v` is the magnitude |
| Vectors.NormalizedIdempotent | sketch.js:76-81 | a unit vector is unchanged, the result is never zero, and normalising twice equals normalising once |
| Vectors.UnitUnchanged | sketch.js:76-81 | normalising a unit vector returns it unchanged |
| Vectors.ReflectFlipsNormal | sketch.js:68-70 | for a unit normal, reflection negates the normal component and keeps the length |
| Vectors.ReflectInvolutive | sketch.js:68-70 | reflecting twice about the same unit normal gives back the original vector |
| Vectors.Vector.constructor | sketch.js:38-43 | the new object holds the given coordinates |
| Vectors.Vector.Normalize | sketch.js:76-81 | the object's new coordinates are the normalised old ones, of unit squared length |
| Rays.Ray.Position | sketch.js:90-92 | the point minus the origin is `direction * t`, so its component along the direction is `t * dot(d, d)` |
| Rays.PositionAtZero | sketch.js:90-92 | at `t = 0` the ray is at its origin |
| Rays.PositionAdditive | sketch.js:90-92 | going `s` further from the point at `t` reaches the point at `t + s` |
| Rays.PositionInjective | sketch.js:90-92 | with a non-zero direction, equal points mean equal parameters, and conversely |
| Intersections.HitUnique | sketch.js:116-132 | at most one index satisfies the hit condition |
| Intersections.HitExists | sketch.js:116-132 | a hit index exists exactly when some entry has `t >= 0` |
| Intersections.FirstNearest | sketch.js:116-132 | the recursive reference selection returns an index that satisfies the hit condition |
| Intersections.Intersections.At | sketch.js:108-114 | `at(i)` is null exactly when `i < 0` or `i >= length`, and otherwise the `i`-th entry |
| Intersections.Intersections.Hit | sketch.js:116-132 | the loop returns null exactly when every `t` is negative; otherwise it returns an entry with `t >= 0`, minimal among those, and strictly smaller than every earlier entry with `t >= 0` |
| Intersections.HitOfMixedList | sketch.js:116-132 | `hit` over t = 5, 7, -3, 2 returns the last entry, at t = 2 |
| Intersections.NoHitBehind | sketch.js:116-132 | `hit` over t = -1, -2 returns null |
| Intersections.HitOfTie | sketch.js:116-132 | `hit` over two entries with equal `t` returns the first, because the loop replaces its candidate only on a strictly smaller `t` |
| Materials.GetDefault | sketch.js:144-146 | the default material is white; its ambient share is positive and below the diffuse share, the two sum to 1, specular equals diffuse, and shininess is above 1 |
| Quadratics.RootsAreFormula | sketch.js:160-168 | with `a != 0`, `t` solves `a t^2 + b t + c = 0` exactly when the discriminant is non-negative and `t` is `t1` or `t2` |
| Quadratics.RootsOrdered | sketch.js:165-167 | with `a > 0`, `t1 <= t2` |
| Quadratics.FormulaRootsSolve | sketch.js:165-167 | both formula roots solve the equation |
| Quadratics.NoRealRoot | sketch.js:163-164 | a negative discriminant leaves no real root |
| Spheres.Sphere.Intersect | sketch.js:156-171 | for a negative discriminant the result is empty; otherwise it has exactly two entries, both tagged with the sphere, both roots of the equation, with `t1 <= t2`; every root is one of them |
| Spheres.Sphere.NormalAt | sketch.js:173-178 | the normal is the normalised offset from the origin, of unit length and pointing outward; on the unit sphere it is the offset itself |
| Spheres.EquationMeansUnitDistance | sketch.js:159-162 | the equation at `t` is the squared distance of `position(t)` from the origin minus 1, because `c` subtracts the literal 1 |
| Spheres.HeadOnIntersection | sketch.js:156-171 | the ray from (0, 0, -5) along +z gives the quadratic (1, -10, 24) with roots 4 and 6 |
| Spheres.HeadOnMiss | sketch.js:156-171 | the ray from (0, 2, -5) along +z has a negative discriminant, so `intersect` returns no entries |
| Lights.ShadeFacingAway | sketch.js:196-198 | with the light behind the surface, the colour is the ambient term alone |
| Lights.ShadeWithoutHighlight | sketch.js:199-206 | when the light faces the surface but the reflection leans away from the eye, the colour is ambient plus diffuse, with no specular term |
| Lights.Lighting | sketch.js:187-214 | the colour is the Phong shade for the normalised light vector; with the light behind the surface (tested on the raw offset), only ambient remains |
| Lights.FacingAgreesWithOffset | sketch.js:189-196 | normalising the light vector does not change the sign of its dot product with the normal |
| Lights.ReflectedLightMirrors | sketch.js:202 | for a unit normal, the reflected light makes the same angle with the normal as the light vector and has the same length |
| Lights.MirrorHighlight | sketch.js:199-210 | looking straight along the reflected light gives all three terms, with specular factor `pow(1, shininess)` |
| Lights.LightBehindShade | sketch.js:187-198 | the default material lit from behind shades to (0.1, 0.1, 0.1) |
| Render.SceneMaterialIsTintedDefault | sketch.js:233-234 | the scene material is the default one with its colour set to (1, 0.2, 1) |
| Render.WallPosition | sketch.js:242-246 | the wall point is at z = 10, and pixels of the canvas land inside the wall square |
| Render.WallStep | sketch.js:228-245 | neighbouring pixels are one pixel size apart, and 480 pixels span the wall |
| Render.WallPositionInjective | sketch.js:242-246 | distinct pixels look at distinct wall points, and conversely |
| Render.WallLandmarks | sketch.js:225-246 | pixel (0, 0) looks at the wall's top-left corner (-5, 5, 10), and pixel (240, 240) at its centre |
| Render.PixelRay | sketch.js:246-249 | the pixel's ray starts at the eye, its direction is the offset to the wall point divided by that offset's length (so of unit length), and it reaches the wall point at `t` equal to that length |
| Render.NearestRootUnique | sketch.js:116-132 | there is at most one nearest non-negative root |
| Render.NearestHit | sketch.js:250-253 | a result it returns is the nearest non-negative root of the ray's equation |
| Render.NearestHitIs | sketch.js:250-253 | anything that is null exactly when there is no nearest root, and otherwise the nearest root, equals `NearestHit` |
| Render.NearestHitExists | sketch.js:250-253 | with a non-zero direction, there is no hit exactly when every root is negative |
| Render.LightOffSphere | sketch.js:231-239 | the light is off the sphere's surface, so `lighting` may normalise there |
| Render.VisiblePoint | sketch.js:254-257 | a point where the ray meets the sphere is at unit distance from the centre and not at the light |
| Render.HitIsNearestRoot | sketch.js:250-253 | what `intersect` and `hit` return together is null exactly when there is no nearest root; otherwise it is that root, tagged with the sphere |
| Render.Trace | sketch.js:250-258 | intersecting, taking the hit, and lighting it gives the ray's colour: none on a miss, otherwise the shade at the nearest point |
| Render.RenderPixel | sketch.js:245-258 | the inner loop body for pixel (x, y) computes that pixel's colour, with its ray direction normalised in place |
| Render.SetPixel | sketch.js:258 | `set` writes one pixel and leaves every other pixel unchanged |
| Render.PaintPixel | sketch.js:244-259 | one inner iteration extends the drawn prefix of row `y` by pixel `x`; a pixel whose ray misses keeps the background; no other pixel changes |
| Render.SetNextPixel | sketch.js:258 | `set` on the pixel just after a drawn prefix of the row keeps that prefix drawn and writes only that pixel |
| Render.RowDrawnNext | sketch.js:244-260 | a drawn prefix of the row followed by a pixel with its frame colour is a drawn prefix one pixel longer |
| Render.DrawRow | sketch.js:241-261 | one outer iteration draws row `y` fully and changes no other row |
| Render.Draw | sketch.js:222-264 | a fresh 480 by 480 canvas in which each pixel is the computed colour times 255 where its ray meets the sphere, and the white background elsewhere |
| Render.MagentaTint | sketch.js:233-258 | every pixel showing the sphere has equal red and blue channels, and green is the weakest |
| Render.RayTint | sketch.js:250-258 | along any ray, the colour met on the sphere has equal red and blue, with green the weakest |
| Render.SurfaceTint | sketch.js:254-257 | the shade at any point of the sphere keeps that tint |
| Render.ShadeTint | sketch.js:187-214 | with the scene's material and light, any shade has equal red and blue, with green the weakest |

## Left out

- `setup` (sketch.js:217-220) is display configuration: `createCanvas` and `frameRate(1)`. So is the frame-after-frame repetition of `draw`. Every frame is the same image; `Draw` models one.
- `updatePixels` (sketch.js:263) only presents the frame, so it is not modelled.
- The p5.js `color` call clamps and rounds channels to bytes. The model keeps the real channels times 255, unclamped.
- IEEE-754 arithmetic is not modelled: no rounding, no NaN, no Infinity. All arithmetic is over `real`.
- `Math.sqrt` and `Math.pow` are parameters. The model relies only on `IsSqrt` for the square root and on nothing for the power.
- Vectors.Vector.Normalize: requires a non-zero vector. On the zero vector the source divides by zero and leaves NaN coordinates, which reals cannot represent. The same precondition is on `Normalized`, `NormalAt` (offset from the origin), `Lighting` (light not at the point) and `Intersect` (non-zero direction, so that `2a` is not zero).
- Spheres.Sphere.Intersect: follows the code's literal `1` in `c`. So the `radius` field takes no part, and every sphere is intersected as a unit sphere about its origin.
- Spheres.Sphere.NormalAt: returns the coordinates of the vector object it normalises, not the object itself. Nothing in the source mutates the returned vector afterwards.
- The sphere's material is optional, as in the source's constructor. Lighting a sphere without one would fail in the source. The scene's sphere has one, which `Trace` relies on.
- Point and Vector are one value type. `Point.sub` and `Vector.sub` are both `Vectors.Sub`. So `Vector.add` applied to a `Point` in `position` needs no special case.
- The undeclared globals `world_x` and `world_y` in `draw` are ordinary locals in `RenderPixel`.
