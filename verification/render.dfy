/**
 * One step of `render_image` in main.cpp: sampling a ray from the light
 * source, one bounce (nothing hit, a prism face, or the ground), and the
 * deposit of a landed ray's colour into the image buffer of
 * `WIDTH * HEIGHT` RGB triples.
 */
module Render {
  import opened Numerics
  import opened Vectors
  import opened Rays
  import opened Geometry
  import opened Optics

  const WIDTH: int := 3300
  const HEIGHT: int := 4200
  const PIXEL_COUNT: int := WIDTH * HEIGHT
  /** How much the image zooms into its centre. */
  const ZOOM: real := 2.0
  /** The fraction of a ray's colour that one landing adds to its pixel. */
  const DEPOSIT_SCALE: real := 0.001
  /** The probability of a ray from above instead of through the slit. */
  const ABOVE_FRACTION: real := 0.10

  // Sampling.

  /**
   * The `my_rand()` draws of one sample, by purpose: the slit target's y and
   * z, the colour, the choice of source, and for a ray from above the jitter
   * of its origin and the spot it aims at.
   */
  datatype SampleDraws = SampleDraws(slitY: real, slitZ: real, colour: real, choice: real,
                                     jitterX: real, jitterY: real, spotX: real, spotY: real)

  predicate UnitDraw(u: real) {
    0.0 <= u < 1.0
  }

  predicate ValidDraws(d: SampleDraws) {
    UnitDraw(d.slitY) && UnitDraw(d.slitZ) && UnitDraw(d.colour) && UnitDraw(d.choice)
    && UnitDraw(d.jitterX) && UnitDraw(d.jitterY) && UnitDraw(d.spotX) && UnitDraw(d.spotY)
  }

  /** `(int) (380 + (700 - 380) * u)`, the wavelength in nanometres. */
  function Wavelength(u: real): int {
    Trunc(380.0 + (700.0 - 380.0) * u)
  }

  /** A draw in [0, 1) gives a visible wavelength from 380 to 699 nm. */
  lemma WavelengthVisible(u: real)
    requires UnitDraw(u)
    ensures 380 <= Wavelength(u) <= 699
  {
  }

  /** Where a sampled ray starts and what it aims at. */
  datatype Beam = Beam(origin: Vec3, target: Vec3)

  /** Through the slit: from far to the left, low and one unit up, towards the slit, both moved by the prism's offset. */
  function SlitBeam(prism: Prism, d: SampleDraws): Beam {
    Beam(Vec3(-10.0, -3.2, 1.0).Add(prism.offset),
         Vec3(-0.6, d.slitY * 0.002 - 0.05, d.slitZ).Add(prism.offset))
  }

  /** From above: ten units over the centroid, jittered, aiming at the ground around the centroid. */
  function AboveBeam(prism: Prism, d: SampleDraws): Beam {
    var avg := Centroid(prism);
    Beam(avg.Add(Vec3((d.jitterX - 0.5) * 0.1, (d.jitterY - 0.5) * 0.1, 10.0)),
         avg.Add(Vec3(d.spotX - 0.5, d.spotY - 0.5, 0.0)))
  }

  function SampleBeam(prism: Prism, d: SampleDraws): Beam {
    if d.choice < ABOVE_FRACTION then AboveBeam(prism, d) else SlitBeam(prism, d)
  }

  /** `Ray ray(ray_origin, (ray_target - ray_origin).unit(), wavelength)`. */
  function SampleRay(prism: Prism, d: SampleDraws, sqrt: real -> real): Ray
    requires IsSqrt(sqrt)
  {
    var beam := SampleBeam(prism, d);
    var aim := beam.target.Sub(beam.origin);
    assert aim.x != 0.0 || aim.z != 0.0;
    Ray(beam.origin, aim.Unit(sqrt), Wavelength(d.colour))
  }

  /**
   * A sampled ray has a unit direction and a visible wavelength. A ray through
   * the slit starts at the light and travels to the right; a ray from above
   * starts ten units up and travels down.
   */
  lemma SampleRayProperties(prism: Prism, d: SampleDraws, sqrt: real -> real)
    requires IsSqrt(sqrt)
    requires ValidDraws(d)
    ensures var ray := SampleRay(prism, d, sqrt);
      ray.direction.SquaredLength() == 1.0 && 380 <= ray.wavelength <= 699
      && (ABOVE_FRACTION <= d.choice ==> ray.origin == Vec3(-10.0, -3.2, 1.0).Add(prism.offset) && 0.0 < ray.direction.x)
      && (d.choice < ABOVE_FRACTION ==> ray.origin.z == Centroid(prism).z + 10.0 && ray.direction.z < 0.0)
  {
    var beam := SampleBeam(prism, d);
    var aim := beam.target.Sub(beam.origin);
    assert aim.x != 0.0 || aim.z != 0.0;
    var u := aim.Unit(sqrt);
    UnitIsUnit(aim, sqrt);
    WavelengthVisible(d.colour);
    LengthPositive(aim, sqrt);
    var len := aim.Length(sqrt);
    if ABOVE_FRACTION <= d.choice {
      assert aim.x == 9.4;
      SignOfScaled(len, u.x);
    } else {
      assert aim.z == -10.0;
      SignOfScaled(len, u.z);
    }
  }

  // One bounce.

  /** What one pass of the bounce loop does with the ray. */
  datatype Outcome =
    | Escaped           // `best_obj == -1`: the ray is done
    | Bounced(ray: Ray) // a prism face: the ray continues as the one `hit_glass` returns
    | Landed(p: Vec3)   // the ground: the ray leaves a spot at `p` and is done

  /**
   * The `switch (best_obj)`: the glass cases take the refractive index for
   * the ray's wavelength and the draw `u` for `hit_glass`.
   */
  function Bounce(prism: Prism, ray: Ray, u: real, sqrt: real -> real): Outcome
    requires IsSqrt(sqrt)
    requires !ray.direction.IsZero() && ray.wavelength != 0
  {
    match NearestHit(ray, prism)
    case None => Escaped
    case Some(h) =>
      if h.obj == 3 then Landed(h.p)
      else
        RefractionIndexAboveOne(ray.wavelength);
        Bounced(HitGlass(ray, h.p, h.n, RefractionIndex(ray.wavelength), u, sqrt))
  }

  /** The ray escapes exactly when nothing is hit. */
  lemma BounceEscapes(prism: Prism, ray: Ray, u: real, sqrt: real -> real)
    requires IsSqrt(sqrt)
    requires !ray.direction.IsZero() && ray.wavelength != 0
    ensures Bounce(prism, ray, u, sqrt).Escaped? <==> NearestHit(ray, prism).None?
  {
  }

  /** A ray that lands does so at height zero, at the point where the ground was hit. */
  lemma BounceLands(prism: Prism, ray: Ray, u: real, sqrt: real -> real)
    requires IsSqrt(sqrt)
    requires !ray.direction.IsZero() && ray.wavelength != 0
    requires Bounce(prism, ray, u, sqrt).Landed?
    ensures NearestHit(ray, prism).Some? && NearestHit(ray, prism).value.obj == 3
    ensures Bounce(prism, ray, u, sqrt).p == NearestHit(ray, prism).value.p
    ensures Bounce(prism, ray, u, sqrt).p.z == 0.0
  {
    NearestHitSurface(ray, prism);
  }

  /** A glass bounce continues from the hit point on a face, with the same wavelength. */
  lemma BounceContinues(prism: Prism, ray: Ray, u: real, sqrt: real -> real)
    requires IsSqrt(sqrt)
    requires !ray.direction.IsZero() && ray.wavelength != 0
    requires Bounce(prism, ray, u, sqrt).Bounced?
    ensures NearestHit(ray, prism).Some? && 0 <= NearestHit(ray, prism).value.obj < 3
    ensures Bounce(prism, ray, u, sqrt).ray.origin == NearestHit(ray, prism).value.p
    ensures Bounce(prism, ray, u, sqrt).ray.wavelength == ray.wavelength
  {
    NearestHitSurface(ray, prism);
  }

  /**
   * With unit face normals, as the source prism has, a bounced ray again has
   * a unit direction and the same wavelength, so it meets the requirements of
   * the next bounce.
   */
  lemma BounceKeepsRayValid(prism: Prism, ray: Ray, u: real, sqrt: real -> real)
    requires IsSqrt(sqrt)
    requires !ray.direction.IsZero() && ray.wavelength != 0
    requires prism.n01.SquaredLength() == 1.0 && prism.n12.SquaredLength() == 1.0 && prism.n20.SquaredLength() == 1.0
    requires Bounce(prism, ray, u, sqrt).Bounced?
    ensures Bounce(prism, ray, u, sqrt).ray.direction.SquaredLength() == 1.0
    ensures !Bounce(prism, ray, u, sqrt).ray.direction.IsZero()
    ensures Bounce(prism, ray, u, sqrt).ray.wavelength == ray.wavelength
  {
    var h := NearestHit(ray, prism).value;
    NearestHitSurface(ray, prism);
    RefractionIndexAboveOne(ray.wavelength);
    HitGlassUnitDirection(ray, h.p, h.n, RefractionIndex(ray.wavelength), u, sqrt);
    var out := Bounce(prism, ray, u, sqrt).ray;
    SquaredLengthPositive(out.direction);
  }

  // The deposit.

  datatype Pixel = Pixel(x: int, y: int)

  /** `(best_p * ZOOM + (0.5, HEIGHT / 2.0 / WIDTH, 0)) * WIDTH`: the ground point in pixel units, y up. */
  function ImagePoint(p: Vec3): Vec3 {
    p.Scale(ZOOM).Add(Vec3(0.5, HEIGHT as real / 2.0 / WIDTH as real, 0.0)).Scale(WIDTH as real)
  }

  /**
   * The pixel as written: `x = (int) (q.x + 0.5)` and
   * `y = HEIGHT - 1 - (int) (q.y + 0.5)`, with C's truncation toward zero.
   */
  function PixelOf(p: Vec3): Pixel {
    var q := ImagePoint(p);
    Pixel(Trunc(q.x + 0.5), HEIGHT - 1 - Trunc(q.y + 0.5))
  }

  /** The pixel nearest to the ground point: rounding by the floor instead of truncating. */
  function PixelOfRounded(p: Vec3): Pixel {
    var q := ImagePoint(p);
    Pixel((q.x + 0.5).Floor, HEIGHT - 1 - (q.y + 0.5).Floor)
  }

  /** The bounds check `x >= 0 && y >= 0 && x < WIDTH && y < HEIGHT`. */
  predicate InImage(px: Pixel) {
    0 <= px.x < WIDTH && 0 <= px.y < HEIGHT
  }

  /** `(y * WIDTH + x) * 3`, the index of the pixel's red channel. */
  function PixelIndex(px: Pixel): int {
    (px.y * WIDTH + px.x) * 3
  }

  /**
   * Pixel `px` is the one nearest to the image point `q`: its centre is within
   * half a pixel of `q` on each axis, with rows counted down from the top.
   */
  predicate NearestPixel(q: Vec3, px: Pixel) {
    px.x as real - 0.5 <= q.x < px.x as real + 0.5
    && (HEIGHT - 1 - px.y) as real - 0.5 <= q.y < (HEIGHT - 1 - px.y) as real + 0.5
  }

  /** The pixel's centre is within half a pixel of the ground point on each axis. */
  lemma PixelOfRoundedIsNearest(p: Vec3)
    ensures NearestPixel(ImagePoint(p), PixelOfRounded(p))
  {
  }

  /** Away from the left and bottom edges the code as written finds the nearest pixel. */
  lemma PixelOfAgreesOnImage(p: Vec3)
    requires 0.0 <= ImagePoint(p).x + 0.5 && 0.0 <= ImagePoint(p).y + 0.5
    ensures PixelOf(p) == PixelOfRounded(p)
  {
  }

  /** Where the shifted coordinates are non-negative, the pixel as written is the nearest one. */
  lemma PixelOfNearestOnImage(p: Vec3)
    ensures var q := ImagePoint(p);
      0.0 <= q.x + 0.5 && 0.0 <= q.y + 0.5 ==> NearestPixel(q, PixelOf(p))
  {
    if 0.0 <= ImagePoint(p).x + 0.5 && 0.0 <= ImagePoint(p).y + 0.5 {
      PixelOfAgreesOnImage(p);
      PixelOfRoundedIsNearest(p);
    }
  }

  /**
   * Truncation rounds the band just left of the image into column 0: a ground
   * point one pixel left of the image edge is deposited into the image,
   * although its nearest pixel is off the image.
   */
  lemma PixelOfCatchesOffImagePoint(p: Vec3)
    requires p.x == -1651.0 / 6600.0 && p.y == 0.0
    ensures ImagePoint(p).x == -1.0
    ensures InImage(PixelOf(p)) && PixelOf(p).x == 0
    ensures !InImage(PixelOfRounded(p)) && PixelOfRounded(p).x == -1
  {
    ImagePointLinear(p);
    assert ImagePoint(p).x + 0.5 == -0.5;
    assert ImagePoint(p).y + 0.5 == 2100.5;
    TruncIsNotFloor();
  }

  /** Ground points map to pixel units linearly: 6600 pixels per unit, with the origin at (1650, 2100). */
  lemma ImagePointLinear(p: Vec3)
    ensures ImagePoint(p) == Vec3(6600.0 * p.x + 1650.0, 6600.0 * p.y + 2100.0, 6600.0 * p.z)
  {
    assert HEIGHT as real / 2.0 / WIDTH as real == 7.0 / 11.0;
  }

  /** The centre of the ground maps to the middle of the image. */
  lemma PixelOfCentre(p: Vec3)
    requires p.x == 0.0 && p.y == 0.0
    ensures PixelOfRounded(p) == Pixel(1650, 2099)
    ensures PixelOf(p) == Pixel(1650, 2099)
  {
    ImagePointLinear(p);
  }

  /** A pixel that passes the bounds check owns three entries inside the buffer. */
  lemma PixelIndexInBuffer(px: Pixel)
    requires InImage(px)
    ensures 0 <= PixelIndex(px) && PixelIndex(px) + 2 < PIXEL_COUNT * 3
    ensures PixelIndex(px) % 3 == 0
  {
  }

  /** Different pixels own disjoint triples of entries. */
  lemma PixelIndexDisjoint(a: Pixel, b: Pixel)
    requires InImage(a) && InImage(b) && a != b
    ensures PixelIndex(a) + 3 <= PixelIndex(b) || PixelIndex(b) + 3 <= PixelIndex(a)
  {
  }

  /**
   * Buffer `r` is `image` after colour `rgb` was deposited at pixel `px`:
   * inside the image the pixel's three channels grew by `DEPOSIT_SCALE` times
   * the colour and every other entry is the same; outside, nothing changed.
   */
  predicate Deposited(image: seq<real>, r: seq<real>, px: Pixel, rgb: Vec3) {
    |r| == |image|
    && (!InImage(px) ==> r == image)
    && (InImage(px) ==>
          var i := PixelIndex(px);
          0 <= i && i + 2 < |image|
          && r[i] == image[i] + rgb.R() * DEPOSIT_SCALE
          && r[i + 1] == image[i + 1] + rgb.G() * DEPOSIT_SCALE
          && r[i + 2] == image[i + 2] + rgb.B() * DEPOSIT_SCALE
          && forall j :: 0 <= j < |image| && (j < i || i + 2 < j) ==> r[j] == image[j])
  }

  /**
   * The deposit of colour `rgb` at pixel `px`: inside the image, the pixel's
   * three channels grow by `DEPOSIT_SCALE` times the colour; outside, the
   * buffer is left alone.
   */
  function Deposit(image: seq<real>, px: Pixel, rgb: Vec3): (r: seq<real>)
    requires |image| == PIXEL_COUNT * 3
    ensures Deposited(image, r, px, rgb)
  {
    if InImage(px) then
      var i := PixelIndex(px);
      PixelIndexInBuffer(px);
      image[i := image[i] + rgb.R() * DEPOSIT_SCALE]
           [i + 1 := image[i + 1] + rgb.G() * DEPOSIT_SCALE]
           [i + 2 := image[i + 2] + rgb.B() * DEPOSIT_SCALE]
    else
      image
  }

  /**
   * Case 3 of the switch, corrected: the landed ray's colour, from
   * `wavelength2rgb` (a parameter here), is deposited at the pixel nearest to
   * the landing point (`PixelOfRoundedIsNearest`), and nothing changes when
   * that pixel is off the image.
   */
  function Land(image: seq<real>, ray: Ray, p: Vec3, wavelength2rgb: int -> Vec3): (r: seq<real>)
    requires |image| == PIXEL_COUNT * 3
    ensures Deposited(image, r, PixelOfRounded(p), wavelength2rgb(ray.wavelength))
  {
    Deposit(image, PixelOfRounded(p), wavelength2rgb(ray.wavelength))
  }

  /**
   * Case 3 of the switch as written: the deposit goes to the truncated pixel.
   * That is the nearest pixel when the shifted coordinates are non-negative,
   * but the band within one pixel left of the image lands in column 0 and the
   * band within one pixel below it lands in the bottom row.
   */
  function LandAsWritten(image: seq<real>, ray: Ray, p: Vec3, wavelength2rgb: int -> Vec3): (r: seq<real>)
    requires |image| == PIXEL_COUNT * 3
    ensures var q := ImagePoint(p);
      0.0 <= q.x + 0.5 && 0.0 <= q.y + 0.5 ==> NearestPixel(q, PixelOf(p))
    ensures var q := ImagePoint(p);
      -1.0 < q.x + 0.5 < 0.0 ==> PixelOf(p).x == 0
    ensures var q := ImagePoint(p);
      -1.0 < q.y + 0.5 < 0.0 ==> PixelOf(p).y == HEIGHT - 1
    ensures Deposited(image, r, PixelOf(p), wavelength2rgb(ray.wavelength))
  {
    PixelOfNearestOnImage(p);
    Deposit(image, PixelOf(p), wavelength2rgb(ray.wavelength))
  }

  /**
   * For the ground point one pixel left of the image, the corrected landing
   * leaves the buffer alone, while the landing as written changes it whenever
   * the colour has a red component.
   */
  lemma LandAsWrittenDepositsOffImage(image: seq<real>, ray: Ray, p: Vec3, wavelength2rgb: int -> Vec3)
    requires |image| == PIXEL_COUNT * 3
    requires p.x == -1651.0 / 6600.0 && p.y == 0.0
    requires wavelength2rgb(ray.wavelength).R() != 0.0
    ensures Land(image, ray, p, wavelength2rgb) == image
    ensures LandAsWritten(image, ray, p, wavelength2rgb) != image
  {
    PixelOfCatchesOffImagePoint(p);
    var r := LandAsWritten(image, ray, p, wavelength2rgb);
    var i := PixelIndex(PixelOf(p));
    assert r[i] != image[i];
  }

  /** Landings accumulate: the order in which two spots are deposited does not matter. */
  lemma DepositsCommute(image: seq<real>, a: Pixel, ca: Vec3, b: Pixel, cb: Vec3)
    requires |image| == PIXEL_COUNT * 3
    ensures Deposit(Deposit(image, a, ca), b, cb) == Deposit(Deposit(image, b, cb), a, ca)
  {
    var ab := Deposit(Deposit(image, a, ca), b, cb);
    var ba := Deposit(Deposit(image, b, cb), a, ca);
    if InImage(a) && InImage(b) && a != b {
      PixelIndexDisjoint(a, b);
    }
    assert forall j :: 0 <= j < |image| ==> ab[j] == ba[j];
  }

  /** `image[i + c] += rgb[c] * 0.001` on the buffer itself. */
  method DepositInPlace(image: array<real>, px: Pixel, rgb: Vec3)
    requires image.Length == PIXEL_COUNT * 3
    modifies image
    ensures image[..] == Deposit(old(image[..]), px, rgb)
  {
    if InImage(px) {
      var i := PixelIndex(px);
      PixelIndexInBuffer(px);
      image[i] := image[i] + rgb.R() * DEPOSIT_SCALE;
      image[i + 1] := image[i + 1] + rgb.G() * DEPOSIT_SCALE;
      image[i + 2] := image[i + 2] + rgb.B() * DEPOSIT_SCALE;
    }
  }
}
