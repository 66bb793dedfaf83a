# prism — a Dafny model of the renderer's core

prism renders light through an equilateral glass prism standing on a sheet
of paper. Rays leave a light source and pass through a slit, or, one time in ten, come
down from above. Each ray has a wavelength from 380 to 699 nm. It is
intersected with the prism's three faces and the ground plane. At a face it is
reflected or refracted, according to Schlick's approximation and a
wavelength-dependent refractive index from Cauchy's equation. When it reaches
the ground it adds its colour to one pixel of a floating-point image buffer.

The model covers:

- the vector class `Vec3` (module `Vectors`);
- the quaternion class `Quat` (module `Quaternions`);
- `Ray` (module `Rays`);
- the free functions of Vec3.cpp (module `VectorUtil`):
  - `refract`;
  - `hsv2rgb`;
  - the two rejection samplers;
- one step of `render_image` in main.cpp, with each stage in its own module:
  - the prism geometry and the nearest hit (module `Geometry`);
  - `schlick`, the dispersion formula and `hit_glass` (module `Optics`);
  - ray sampling, the bounce `switch` and the pixel deposit (module `Render`).

Numbers are `real`, an idealisation of `float`. The C library functions
become explicit definitions in module `Numerics`:

- `(int)` is `Trunc`, which truncates toward zero;
- `fmodf(x, 1)` is `FMod1`, which keeps the sign of `x`;
- `std::numeric_limits<float>::max()` is `FLT_MAX`.

`sqrt` is a parameter `sqrt: real -> real` with the precondition
`IsSqrt(sqrt)`: for every `x >= 0`, `sqrt(x)` is non-negative and squares to
`x`. Each `my_rand()` draw is a parameter too:

- a named field of `SampleDraws` for the ray sampler;
- the argument `u` for the reflect-or-refract choice;
- a sequence of draws for the rejection samplers.

`wavelength2rgb` is a parameter of `Land` and `LandAsWritten`. Ray.h declares a ray with an origin and a
direction only, but main.cpp constructs rays with a wavelength as a third argument
and reads it back with `wavelength()`, so the model's `Ray` carries an integer
wavelength.

## Model

| member | source | states |
|---|---|---|
| Numerics.SqrtUnique | main.cpp:186 | any function meeting `IsSqrt` returns the unique non-negative root, so the model's `sqrt` is the library one on its domain |
| Numerics.SqrtPositive | main.cpp:186 | the root of a positive number is positive (used for the prism's apex height) |
| Numerics.Trunc | main.cpp:209 | C's `(int)` conversion: the integer part toward zero, for both signs |
| Numerics.TruncIsNotFloor | main.cpp:327-328 | `(int)` differs from rounding down on negative values: `(int) -0.5` is 0 while the floor is -1 |
| Numerics.FAbs | main.cpp:83 | `fabs` is non-negative and equals `x` or `-x` |
| Numerics.FMin | main.cpp:85-104 | the lesser end of an edge, as the `p1 < p2` branches pick it: a lower bound of both arguments and one of them |
| Numerics.FMax | main.cpp:85-104 | the greater end of an edge, as the same branches pick it: an upper bound of both arguments and one of them |
| Numerics.FMod1 | Vec3.cpp:71 | `fmodf(x, 1)` lies in [0, 1) for non-negative `x` and in (-1, 0] for negative `x`, and differs from `x` by an integer |
| Numerics.Pow5 | main.cpp:133 | no contract; `pow(x, 5)`, described by `Pow5UnitInterval` |
| Numerics.Pow5UnitInterval | main.cpp:133 | `pow(x, 5)` of a value in [0, 1] stays in [0, 1] |
| Vectors.Vec3.Div | Vec3.h:44-46 | component-wise division by a vector with no zero component is undone by component-wise multiplication |
| Vectors.Vec3.R | Vec3.h:26-28 | no contract; `r()`, `g()` and `b()` read the components, as `Deposit`'s contract uses them |
| Vectors.Vec3.Neg | Vec3.h:31 | no contract; unary minus, whose use in `hit_glass` `ReflectFlippedNormal` and `CrossingFacesRay` describe |
| Vectors.Vec3.Add | Vec3.h:35-37 | no contract; component-wise sum, described by `PointAtAdditive` |
| Vectors.Vec3.Sub | Vec3.h:38-40 | no contract; component-wise difference, described by `DotSub` and `SubScaledSquaredLength` |
| Vectors.Vec3.Mul | Vec3.h:41-43 | no contract; component-wise product, the inverse of `Div` in `Div`'s contract |
| Vectors.Vec3.Scale | Vec3.h:47-49 | no contract; scaling by a float, described by `ScaledSquaredLength` and `DotScale` |
| Vectors.Vec3.Dot | Vec3.h:93-95 | no contract; the dot product, described by `DotSymmetric`, `DotSub`, `DotScale` and `UnitDotBound` |
| Vectors.Vec3.SquaredLength | Vec3.h:107-109 | no contract; described by `SquaredLengthIsSelfDot` and `SquaredLengthPositive` |
| Vectors.Vec3.Unit | Vec3.h:90-92 | no contract; `*this / length()`, described by `UnitIsUnit` |
| Vectors.ScaleLeft | Vec3.h:127-129 | no contract; `t * v` defined as `v * t`, described by `ScaleLeftCommutes` |
| Vectors.Reflect | Vec3.h:139-141 | no contract; `v - 2 (v . n) n`, described by `ReflectNormalComponent`, `ReflectPreservesLength`, `ReflectInvolution`, `ReflectFlippedNormal` and `ReflectInGround` |
| Vectors.Vec3.DivScalar | Vec3.h:50-52 | division by a non-zero scalar is undone by scaling |
| Vectors.Vec3.Cross | Vec3.h:97-102 | the cross product is orthogonal to both arguments |
| Vectors.Vec3.Length | Vec3.h:104-106 | `length` is non-negative and squares to `squared_length` |
| Vectors.Vec3.Min | Vec3.h:113-118 | per component, `min` is below both vectors and equal to one of them |
| Vectors.Vec3.Max | Vec3.h:119-124 | per component, `max` is above both vectors and equal to one of them |
| Vectors.SquaredLengthPositive | Vec3.h:107-109 | `squared_length` is non-negative, and positive exactly for a non-zero vector |
| Vectors.LengthPositive | Vec3.h:104-106 | a non-zero vector has positive length |
| Vectors.UnitIsUnit | Vec3.h:90-92 | `unit()` of a non-zero vector has length 1 and, scaled by the length, gives the vector back |
| Vectors.ScaledSquaredLength | Vec3.h:47-49 | scaling by `t` multiplies the squared length by `t*t` |
| Vectors.DotSymmetric | Vec3.h:93-95 | the dot product is symmetric |
| Vectors.SquaredLengthIsSelfDot | Vec3.h:93-95 | `squared_length` is the dot product of a vector with itself |
| Vectors.DotSub | Vec3.h:93-95 | the dot product distributes over subtraction on the left |
| Vectors.DotScale | Vec3.h:93-95 | scaling the left argument scales the dot product |
| Vectors.SubScaledSquaredLength | Vec3.h:107-109 | expansion of the squared length of `a - k*n`, used for `reflect` and `refract` |
| Vectors.Lagrange | Vec3.h:97-102 | Lagrange's identity links `cross`, `dot` and `squared_length` |
| Vectors.UnitDotBound | Vec3.h:93-95 | the dot product of two unit vectors has square at most 1 (Cauchy–Schwarz) |
| Vectors.ScaleLeftCommutes | Vec3.h:127-129 | scalar-on-the-left multiplication equals scaling each component |
| Vectors.MinBelowMax | Vec3.h:113-124 | per component, `min` lies at or below both vectors and `max` at or above them |
| Vectors.ReflectNormalComponent | Vec3.h:138-141 | reflecting in a unit normal negates the component along the normal |
| Vectors.ReflectPreservesLength | Vec3.h:138-141 | reflecting in a unit normal preserves the squared length |
| Vectors.ReflectInvolution | Vec3.h:138-141 | reflecting twice in the same unit normal gives the vector back |
| Vectors.ReflectFlippedNormal | Vec3.h:138-141 | reflecting in `-n` is the same as reflecting in `n`, which `hit_glass` relies on when it reflects in the unflipped normal |
| Vectors.ReflectInGround | Vec3.h:138-141 | reflecting in the ground's normal (0, 0, 1) flips the vertical component and keeps the horizontal ones |
| Quaternions.Quat.DivScalar | Quat.h:62-64 | division by a non-zero scalar is undone by multiplying every component back |
| Quaternions.Quat.VectorPart | Quat.h:34-36 | no contract; `vec3()`, described by `FromVectorRoundTrip` |
| Quaternions.Quat.Conj | Quat.h:38-40 | no contract; described by `ConjInvolution`, `ConjPreservesSquaredLength`, `MulConj` and `ConjOfProduct` |
| Quaternions.Quat.SquaredLength | Quat.h:42-44 | no contract; described by `MulConj` and `SquaredLengthMultiplicative` |
| Quaternions.Quat.Mul | Quat.h:46-52 | no contract; the Hamilton product, described by `IdentityIsNeutral`, `MulInv`, `SquaredLengthMultiplicative` and `ConjOfProduct` |
| Quaternions.Quat.MulVec | Quat.h:54-60 | no contract; the product with a vector, described by `MulVecIsMulPure` |
| Quaternions.Quat.Inv | Quat.h:30-32 | no contract; `conj() / squared_length()`, described by `MulInv` |
| Quaternions.FromVector | Quat.h:24-28 | no contract; `Quat(Vec3, w)`, described by `FromVectorRoundTrip` |
| Quaternions.IdentityIsNeutral | Quat.h:13-16 | the default quaternion is a two-sided identity of `operator*` |
| Quaternions.ConjInvolution | Quat.h:38-40 | conjugating twice is the identity |
| Quaternions.ConjPreservesSquaredLength | Quat.h:38-44 | the conjugate has the same squared length |
| Quaternions.MulConj | Quat.h:38-52 | `q * conj(q)` is the real quaternion `squared_length(q)` |
| Quaternions.MulInv | Quat.h:30-32 | `q * inv(q)` is the identity for every non-zero quaternion |
| Quaternions.SquaredLengthMultiplicative | Quat.h:42-52 | the squared length of a product is the product of the squared lengths |
| Quaternions.ConjOfProduct | Quat.h:38-52 | the conjugate of `q * o` is `conj(o) * conj(q)` |
| Quaternions.MulVecIsMulPure | Quat.h:54-60 | multiplying by a `Vec3` is multiplying by the pure quaternion with `w = 0` |
| Quaternions.FromVectorRoundTrip | Quat.h:24-36 | building a quaternion from a vector and `w`, then taking `vec3()` and `w`, gives both back |
| Rays.ConstructorKeepsArguments | Ray.h:18-24 | the accessors return the constructor's origin and direction, and the wavelength that main.cpp passes as a third argument |
| Rays.Ray.PointAt | Ray.h:25 | no contract; `origin + t * direction`, described by `PointAtZero`, `PointAtAdditive` and `PointAtOffset` |
| Rays.PointAtZero | Ray.h:25 | `point_at(0)` is the origin |
| Rays.PointAtAdditive | Ray.h:25 | moving `t` further along the direction from `point_at(s)` reaches `point_at(s + t)` |
| Rays.PointAtOffset | Ray.h:25 | `point_at(t) - origin` is `t * direction` |
| VectorUtil.Refract | Vec3.cpp:47-57 | `refract` fails exactly when the discriminant is not positive |
| VectorUtil.Discriminant | Vec3.cpp:48-49 | no contract; `1 - eta^2 (1 - (v . n)^2)`, whose sign `Refract`'s contract ties to failure |
| VectorUtil.RefractSnell | Vec3.cpp:47-57 | Snell's law for a unit normal: the refracted part along the surface is `eta` times the incoming one, and the part along the normal is minus the root of the discriminant |
| VectorUtil.RefractHeadOn | Vec3.cpp:47-57 | with ratio 1, a ray against a unit normal passes straight through |
| VectorUtil.RefractUnit | Vec3.cpp:47-57 | for unit `v` and `n`, a successful refraction gives a unit vector on the far side of the surface (`refracted · n < 0`) |
| VectorUtil.RefractEnteringSucceeds | Vec3.cpp:47-57 | with a ratio in (-1, 1), as when entering a denser medium, refraction never fails |
| VectorUtil.Hsv2RgbGray | Vec3.cpp:65-68 | an unsaturated colour is gray at its value, whatever the hue |
| VectorUtil.Hsv2Rgb | Vec3.cpp:60-110 | no contract; described by `Hsv2RgbGray`, `Hsv2RgbInRange` and `Hsv2RgbNegativeHueOverflows` |
| VectorUtil.HsvSector | Vec3.cpp:73-109 | no contract; the section and the fraction within it, described by `HsvSectorInRange` |
| VectorUtil.SectorColour | Vec3.cpp:80-109 | no contract; `p`, `q` and `t` fed to the switch, described by `SectorChannelsInRange` |
| VectorUtil.HueSection | Vec3.cpp:84-109 | no contract; the switch on the section, described by `HueSectionInRange` |
| VectorUtil.Hsv2RgbWrapped | Vec3.cpp:60-110 | no contract; the corrected conversion, described by `Hsv2RgbWrappedInRange`, `Hsv2RgbWrappedPeriodic` and `Hsv2RgbWrappedAgrees` |
| VectorUtil.HueSectionInRange | Vec3.cpp:84-109 | if `p`, `q` and `t` lie in [0, v], every case of the switch gives channels in [0, v] with one equal to `v` |
| VectorUtil.SectorChannelsInRange | Vec3.cpp:78-109 | for a fraction and a saturation in [0, 1], every sector's colour is in range with one channel at `v` |
| VectorUtil.HsvSectorInRange | Vec3.cpp:73-109 | a wrapped hue in [0, 1) yields channels in [0, v] with one channel at `v` |
| VectorUtil.Hsv2RgbInRange | Vec3.cpp:60-110 | for a hue in [0, 1) and saturation in [0, 1], `hsv2rgb` yields channels in [0, v] with one at `v` |
| VectorUtil.Hsv2RgbNegativeHueOverflows | Vec3.cpp:71-78 | as written, hue -0.25 at full saturation and value gives (1, 0, 1.5), a channel above the value |
| VectorUtil.Hsv2RgbWrappedInRange | Vec3.cpp:60-110 | with the hue wrapped into [0, 1), every hue and every saturation in [0, 1] yields channels in [0, v] |
| VectorUtil.Hsv2RgbWrappedPeriodic | Vec3.cpp:71 | the wrapped conversion has period 1 in the hue |
| VectorUtil.Hsv2RgbWrappedAgrees | Vec3.cpp:60-110 | the wrapped conversion agrees with `hsv2rgb` on every non-negative hue |
| VectorUtil.RandomInUnitSphere | Vec3.cpp:19-27 | the sampler returns the first candidate inside the closed unit ball, having rejected every earlier one; each candidate takes its three draws as x, y, z in turn |
| VectorUtil.RandomInUnitDisc | Vec3.cpp:29-37 | the disc sampler returns the first candidate in the unit disc of the plane z = 0, having rejected every earlier one |
| VectorUtil.SphereCandidateInCube | Vec3.cpp:23 | draws in [0, 1) put each candidate in the cube [-1, 1)^3 |
| VectorUtil.SphereCandidate | Vec3.cpp:23 | no contract; `2 * (d0, d1, d2) - (1, 1, 1)` for the k-th triple of draws, described by `SphereCandidateInCube` and `RandomInUnitSphere` |
| VectorUtil.DiscCandidate | Vec3.cpp:33 | no contract; `2 * (d0, d1, 0) - (1, 1, 0)` for the k-th pair of draws, described by `RandomInUnitDisc` |
| Geometry.Get2dNormalIsNormal | main.cpp:53-57 | the 2D normal of two points that differ in x or y is horizontal, of unit length and perpendicular to the edge |
| Geometry.Get2dNormalSide | main.cpp:53-57 | normalising does not change which side of the edge a vector points to |
| Geometry.EdgePerpendicular | main.cpp:54-56 | no contract; `(-v.y, v.x, 0)` for the edge `v`, described by `Get2dNormalSide` |
| Geometry.Get2dNormal | main.cpp:53-57 | no contract; described by `Get2dNormalIsNormal` and `Get2dNormalSide` |
| Geometry.IntersectWithPrismSide | main.cpp:60-111 | a ray parallel to the face gives -1, and every other result is -1 or a distance beyond `MIN_HIT_DIST` |
| Geometry.LinearRoot | main.cpp:72-74 | the plane equation along the ray has the single root `t = -a/b` |
| Geometry.IntersectSound | main.cpp:60-111 | a distance other than -1 is one beyond `MIN_HIT_DIST` at which the ray meets the face's plane, no higher than 2 and between the edge's ends on the normal's dominant axis |
| Geometry.IntersectComplete | main.cpp:60-111 | if a non-parallel ray meets the face at `t`, the intersection returns `t` |
| Geometry.ApexHeightPositive | main.cpp:186 | the prism's apex is above its base |
| Geometry.SourcePrismOutward | main.cpp:184-198 | the three normals are horizontal unit vectors pointing away from the prism's centroid |
| Geometry.SourcePrismEquilateral | main.cpp:184-193 | the prism is equilateral with side `PRISM_WIDTH`, centred on x = 0 |
| Geometry.ApexHeight | main.cpp:186 | no contract; `PRISM_WIDTH * sqrt(3) / 2`, described by `ApexHeightPositive` |
| Geometry.SourcePrism | main.cpp:184-198 | no contract; the vertices, offset and normals, described by `SourcePrismOutward` and `SourcePrismEquilateral` |
| Geometry.Centroid | main.cpp:230 | no contract; `(p0 + p1 + p2) / 3`, described by `SourcePrismOutward` and `SourcePrismEquilateral` |
| Geometry.Candidates | main.cpp:246-292 | there are exactly four candidates |
| Geometry.CandidatesInOrder | main.cpp:246-292 | the candidates are faces 0-1, 1-2 and 2-0 with their normals, then the ground with (0, 0, 1); a face's distance is -1 or a hit on that face and its test is z > 0; the ground's test is that the ray is not level, and it then lies at height 0 |
| Geometry.FaceCandidate | main.cpp:246-255 | no contract; one face's distance and its z > 0 test, described by `CandidatesInOrder` |
| Geometry.GroundCandidate | main.cpp:279-292 | no contract; the ground's distance `-origin.z / dz` when `dz != 0`, described by `CandidatesInOrder` and `GroundHitAtZero` |
| Geometry.BestT | main.cpp:240 | no contract; `best_t`, starting at the largest float, as `NearestIsLeast` uses it |
| Geometry.Consider | main.cpp:247-255 | no contract; one `t > MIN_HIT_DIST && t < best_t` update, described by `NearestIsLeast` |
| Geometry.Nearest | main.cpp:240-292 | no contract; the updates in order, described by `NearestIsLeast` |
| Geometry.NearestHit | main.cpp:240-292 | no contract; described by `NearestHitNone` and `NearestHitSurface` |
| Geometry.NearestIsLeast | main.cpp:240-292 | the running minimum returns nothing exactly when no candidate is eligible; otherwise an eligible candidate of least distance that is strictly nearer than every earlier eligible one |
| Geometry.NearestHitNone | main.cpp:240-296 | the ray escapes exactly when no face and not the ground is hit at a usable distance |
| Geometry.NearestHitSurface | main.cpp:240-292 | a face hit lies on that face, between heights 0 and 2, with that face's normal; a ground hit lies at height 0 with normal (0, 0, 1) |
| Geometry.GroundHitAtZero | main.cpp:279-292 | a non-horizontal ray meets the ground at height 0 |
| Optics.NormalReflectance | main.cpp:131-132 | Schlick's reflectance at normal incidence is non-negative |
| Optics.ReflectanceRatioBounded | main.cpp:131 | for a non-negative index, `(1 - n) / (1 + n)` lies in [-1, 1] |
| Optics.NormalReflectanceAtMostOne | main.cpp:131-132 | for a non-negative index it is at most 1 |
| Optics.SchlickEnds | main.cpp:130-134 | head-on, `schlick` is the normal reflectance; at grazing incidence it is 1 |
| Optics.SchlickIsProbability | main.cpp:130-134 | for a cosine in [0, 1], `schlick` lies between the normal reflectance and 1; `hit_glass` hands it such a cosine only when the ray enters the glass (`ExitCosineAboveOne`) |
| Optics.Schlick | main.cpp:130-134 | no contract; `r0 + (1 - r0) (1 - cosine)^5`, described by `SchlickEnds` and `SchlickIsProbability` |
| Optics.Cauchy | main.cpp:314 | no contract; `B + C / lambda^2`, the formula `RefractionIndexAtPivot` and `RefractionIndexWidened` compare against |
| Optics.RefractionIndex | main.cpp:305-314 | no contract; the widened Cauchy index, described by `RefractionIndexAtPivot`, `RefractionIndexWidened`, `RefractionIndexDecreasing` and `RefractionIndexAboveOne` |
| Optics.RefractionIndexAtPivot | main.cpp:305-314 | the widening keeps the index at 540 nm equal to Cauchy's unwidened value |
| Optics.RefractionIndexWidened | main.cpp:305-314 | the deviation from the 540 nm index is ten times that of Cauchy's unwidened formula |
| Optics.RefractionIndexDecreasing | main.cpp:305-314 | the index strictly decreases as the wavelength grows (normal dispersion) |
| Optics.RefractionIndexAboveOne | main.cpp:305-314 | the index is above 1 for every non-zero wavelength |
| Optics.HitGlassChoice | main.cpp:161-176 | the ray reflects when refraction fails or the draw is below `schlick`'s value, and otherwise refracts; that value is a probability for an entering ray, while a leaving one can get a negative value (`ExitHeadOnNeverReflects`) |
| Optics.HitGlassReflectionSide | main.cpp:149-176 | reflecting in the original normal equals reflecting in the flipped one |
| Optics.HitGlass | main.cpp:137-177 | the outgoing ray starts at the hit point and keeps the wavelength |
| Optics.Scatter | main.cpp:161-176 | no contract; the refract-or-reflect tail of `hit_glass` for a given cosine, described by `HitGlassChoice` |
| Optics.CrossingFacesRay | main.cpp:149-159 | inside (`dir·n > 0`) the normal is `-n`, the ratio is the index and the cosine is `index * dir·n`; outside the normal is `n`, the ratio is the reciprocal of the index and the cosine is `-dir·n`; either way the normal faces the incoming ray |
| Optics.CrossingAt | main.cpp:149-159 | no contract; the normal, ratio and cosine for the side the ray is on, described by `CrossingFacesRay` |
| Optics.EnteringAlwaysRefracts | main.cpp:149-162 | a unit ray entering glass of index above 1 keeps the outward normal, uses ratio `1/index`, and never meets total internal reflection |
| Optics.HitGlassUnitDirection | main.cpp:137-177 | with a unit face normal, the outgoing direction has unit length |
| Optics.SampledIndexSquareAboveTwo | main.cpp:305-314 | every sampled wavelength, 380 to 699 nm, gives an index whose square exceeds 2 |
| Optics.ExitCosineAboveOne | main.cpp:149-153 | as written: a unit ray that leaves the glass and refracts, at an index whose square is at least 2, hands `schlick` a cosine above 1 |
| Optics.ExitCosineAboveOneSampled | main.cpp:149-153 | as written: a unit ray that leaves the glass and refracts, at any sampled wavelength from 380 to 699 nm, hands `schlick` a cosine above 1 (the index there is above 1, so the cosine is defined) |
| Optics.ExitHeadOnNeverReflects | main.cpp:149-168 | as written: a ray leaving head-on at an index in (1.63, 1.64) gets a negative `schlick` value and refracts straight out for every draw in [0, 1) |
| Optics.RefractionIndexViolet | main.cpp:305-314 | the index at 400 nm lies in (1.63, 1.64) |
| Optics.RefractStraightOut | Vec3.cpp:47-57 | a ray leaving along the unit outward normal refracts straight out at any ratio |
| Optics.SchlickShortWave | main.cpp:130-134 | `schlick(index, index)` is negative for an index in (1.63, 1.64) |
| Optics.AirSideCosine | main.cpp:149-159 | no contract; the corrected cosine, the angle on the air side, described by `AirSideCosineIsProbability` |
| Optics.HitGlassAirSide | main.cpp:137-177 | corrected `hit_glass`: the outgoing ray starts at the hit point and keeps the wavelength |
| Optics.HitGlassAirSideAgreesEntering | main.cpp:149-159 | for an entering ray the corrected `hit_glass` equals the one as written |
| Optics.AirSideCosineLeaving | main.cpp:149-153 | corrected: leaving, the air-side cosine lies in (0, 1] and is that of the refracted ray with the outward normal |
| Optics.AirSideCosineIsProbability | main.cpp:149-164 | corrected: whenever the ray can refract, the air-side cosine is in [0, 1] and `schlick` of it lies between the normal reflectance and 1; leaving, the cosine is positive and is that of the refracted ray with the outward normal |
| Render.WavelengthVisible | main.cpp:209 | a draw in [0, 1) gives a wavelength from 380 to 699 nm |
| Render.Wavelength | main.cpp:209 | no contract; `(int) (380 + 320 u)`, described by `WavelengthVisible` |
| Render.SlitBeam | main.cpp:207-226 | no contract; the light source and the slit target, both moved by the offset, described by `SampleRayProperties` |
| Render.AboveBeam | main.cpp:229-233 | no contract; the jittered origin 10 above the centroid and the spot it aims at, described by `SampleRayProperties` |
| Render.SampleBeam | main.cpp:228-233 | no contract; from above when the draw is below 0.10, described by `SampleRayProperties` |
| Render.SampleRay | main.cpp:207-235 | no contract; described by `SampleRayProperties` |
| Render.SampleRayProperties | main.cpp:207-235 | a sampled ray has a unit direction and a visible wavelength; through the slit it starts at the offset light source and heads in +x; from above it starts 10 above the centroid and heads down |
| Render.BounceEscapes | main.cpp:294-298 | the ray is done without a spot exactly when nothing is hit |
| Render.BounceLands | main.cpp:323-325 | a landing is at the ground hit, at height 0 |
| Render.BounceContinues | main.cpp:300-320 | a glass bounce continues from the face hit with the same wavelength |
| Render.BounceKeepsRayValid | main.cpp:316-318 | a bounced ray again has a unit, non-zero direction and the same wavelength, so it can bounce again |
| Render.Bounce | main.cpp:294-341 | no contract; the switch on `best_obj`, described by `BounceEscapes`, `BounceLands`, `BounceContinues` and `BounceKeepsRayValid` |
| Render.ImagePoint | main.cpp:325 | no contract; described by `ImagePointLinear` |
| Render.PixelOf | main.cpp:327-328 | no contract; the pixel as written, described by `PixelOfNearestOnImage`, `PixelOfCatchesOffImagePoint` and `LandAsWritten` |
| Render.PixelOfRounded | main.cpp:327-328 | no contract; the corrected pixel, described by `PixelOfRoundedIsNearest` |
| Render.InImage | main.cpp:330 | no contract; the bounds check, described by `Deposited` and `PixelIndexInBuffer` |
| Render.PixelIndex | main.cpp:333 | no contract; `(y * WIDTH + x) * 3`, described by `PixelIndexInBuffer` and `PixelIndexDisjoint` |
| Render.PixelOfNearestOnImage | main.cpp:327-328 | where the shifted image coordinates are non-negative, the pixel as written is the nearest one |
| Render.PixelOfRoundedIsNearest | main.cpp:325-328 | the corrected pixel is the nearest one: the image point lies within half a pixel of its centre |
| Render.PixelOfAgreesOnImage | main.cpp:327-328 | where the shifted image coordinates are non-negative, truncation and rounding down pick the same pixel |
| Render.PixelOfCatchesOffImagePoint | main.cpp:327-330 | as written, the ground point (-1651/6600, 0) has image x -1, yet it passes the bounds check in column 0; its nearest pixel, column -1, is off the image |
| Render.ImagePointLinear | main.cpp:325 | the ground-to-image map is `6600*(x, y) + (1650, 2100)` |
| Render.PixelOfCentre | main.cpp:325-328 | the ground origin is deposited at pixel (1650, 2099) |
| Render.PixelIndexInBuffer | main.cpp:330-333 | a pixel that passes the bounds check indexes three channels inside the buffer |
| Render.PixelIndexDisjoint | main.cpp:333 | different pixels own disjoint channel triples |
| Render.Deposit | main.cpp:330-336 | inside the image, the pixel's three channels grow by a thousandth of the colour and nothing else changes; outside, the buffer is unchanged |
| Render.Land | main.cpp:323-339 | corrected: the deposit goes to the pixel nearest to the landing point (`PixelOfRoundedIsNearest`); a landing whose nearest pixel is off the image changes nothing, and otherwise that pixel's three channels grow by a thousandth of the ray's colour and nothing else changes |
| Render.LandAsWritten | main.cpp:323-339 | as written: where the shifted coordinates are non-negative the truncated pixel is the nearest one, but a point within one pixel left of the image goes to column 0 and one within one pixel below it to the bottom row; the deposit then behaves as `Deposit` does |
| Render.LandAsWrittenDepositsOffImage | main.cpp:325-336 | for the ground point (-1651/6600, 0), the corrected landing leaves the buffer unchanged, while the landing as written changes it whenever the colour's red part is non-zero |
| Render.DepositsCommute | main.cpp:330-336 | two deposits commute, so the order in which rays land does not matter |
| Render.DepositInPlace | main.cpp:333-336 | the in-place update of the array equals the functional deposit |

## Left out

- Threads, the atomic working counter and `g_quit`: concurrency is not modelled; one sample and one bounce are modelled as functions.
- The unbounded `while` loops of `render_image`: each pass is modelled (`SampleRay`, `Bounce`, `Land`), and the loop that repeats them is not.
- The random number generator (`init_rand`, `my_rand`, `erand48`): draws are parameters.
- The order of `my_rand()` calls that are arguments of one constructor: C++ leaves it unspecified, for the `ray_target` constructor (main.cpp:208) and for the candidates of `random_in_unit_sphere` and `random_in_unit_disc` (Vec3.cpp:23, Vec3.cpp:33). The ray sampler names each draw; the rejection samplers take a candidate's draws as x, y, z in turn, one of the orders a compiler may choose.
- `wavelength2rgb`, `vector_to_polar`, Timer.h, tone mapping, gamma, saving the image and the display: I/O and colour tables outside the modelled core; `wavelength2rgb` is a parameter.
- `plot_point`: a debugging helper whose calls are commented out.
- IEEE `float`: rounding, overflow, NaN and infinities are not modelled; `FLT_MAX` is only the initial "no hit yet" distance.
- Vec3's compound-assignment operators, `make_unit_vector`, `operator[]` and the stream operators: over reals the compound forms equal the binary operators, and the rest is access or I/O.
- Vectors.Vec3.Unit: requires a non-zero vector, where the source divides by zero.
- Geometry.Get2dNormal: requires two points that differ in x or y, for the same reason.
- Render.Bounce: requires a non-zero direction and a non-zero wavelength; sampled rays meet both (`SampleRayProperties`, `BounceKeepsRayValid`). A glass bounce uses `HitGlass`, the cosine as written, so the trace step models main.cpp; the corrected `HitGlassAirSide` is stated beside it (see Findings).
- VectorUtil.RandomInUnitSphere: the source loops until it accepts a candidate, and the model consumes a finite sequence of draws, returning `None` when it runs out.
- VectorUtil.RandomInUnitDisc: bounded by a finite sequence of draws in the same way.
- Render.Land: its colour is the parameter `wavelength2rgb`, and it deposits at the corrected pixel (see Findings); `LandAsWritten` deposits at the pixel as written.
- The comment "Center prism at 0,0,0" (main.cpp:189): the offset moves the base to y = -0.4 times the apex height, so the centroid is not at the origin. The model follows the code.

## Findings

| source | as written | input that shows it | evidently intended | confidence | as-written member | corrected member |
|---|---|---|---|---|---|---|
| Vec3.cpp:71-78 | `fmodf(h, 1)` keeps the sign of a negative hue, so `section` is negative and falls to the default case with a fraction outside [0, 1] | hsv = (-0.25, 1, 1) gives (1, 0, 1.5), a channel above the value | wrap the hue into [0, 1) so every channel is in [0, v] | not executed | VectorUtil.Hsv2RgbNegativeHueOverflows | VectorUtil.Hsv2RgbWrappedInRange |
| main.cpp:327-328 | `(int) (q + 0.5)` truncates toward zero, so image coordinates in (-1.5, -0.5) are rounded to 0 rather than -1 and pass the bounds check; the same holds for the bottom row through y | the ground point (-1651/6600, 0, 0) has image x = -1, lies off the image, and is deposited in column 0 | round to the nearest pixel, and skip points whose nearest pixel is off the image | not executed | Render.LandAsWrittenDepositsOffImage | Render.Land |
| main.cpp:149-153 | leaving the glass, `schlick` gets `refraction_index*dir.dot(n)`, the inside cosine scaled by the index, which exceeds 1 whenever the ray refracts out at a sampled wavelength (`ExitCosineAboveOneSampled`), so the coefficient is no longer a probability | a unit ray leaving head-on at 400 nm: the cosine is the index, about 1.637, `schlick` is about -0.04, and the ray is never reflected back | hand `schlick` the cosine on the air side, that of the refracted ray, the root of the discriminant, which lies in (0, 1] | not executed | Optics.ExitHeadOnNeverReflects | Optics.AirSideCosineIsProbability |
