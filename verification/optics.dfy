/**
 * The glass optics of main.cpp: Schlick's approximation of the reflection
 * coefficient, the widened Cauchy dispersion formula giving the refractive
 * index for a wavelength, and `hit_glass`, which chooses between reflection
 * and refraction at a face of the prism.
 */
module Optics {
  import opened Numerics
  import opened Vectors
  import opened VectorUtil
  import opened Rays

  // Schlick's approximation.

  /** `r0 = ((1 - n) / (1 + n))^2`, the reflectance at normal incidence. */
  function NormalReflectance(n: real): (r0: real)
    requires n != -1.0
    ensures 0.0 <= r0
  {
    var r := (1.0 - n) / (1.0 + n);
    Square(r);
    r * r
  }

  /** `schlick(cosine, refraction_index)`: `r0 + (1 - r0) (1 - cosine)^5`. */
  function Schlick(cosine: real, n: real): real
    requires n != -1.0
  {
    var r0 := NormalReflectance(n);
    r0 + (1.0 - r0) * Pow5(1.0 - cosine)
  }

  /** At normal incidence the approximation is `((1 - n) / (1 + n))^2`; at grazing incidence it is one. */
  lemma SchlickEnds(n: real)
    requires n != -1.0
    ensures Schlick(1.0, n) == ((1.0 - n) / (1.0 + n)) * ((1.0 - n) / (1.0 + n))
    ensures Schlick(0.0, n) == 1.0
  {
    assert Pow5(0.0) == 0.0;
    assert Pow5(1.0) == 1.0;
  }

  /** For a non-negative index, `(1 - n) / (1 + n)` lies in [-1, 1]. */
  lemma ReflectanceRatioBounded(n: real)
    requires 0.0 <= n
    ensures -1.0 <= (1.0 - n) / (1.0 + n) <= 1.0
  {
    var d := 1.0 + n;
    var r := (1.0 - n) / d;
    assert r * d == 1.0 - n;
    calc {
      (-1.0 - r) * d;
      -d - r * d;
      -2.0;
    }
    calc {
      (r - 1.0) * d;
      r * d - d;
      -2.0 * n;
    }
    if r < -1.0 {
      MulPositive(-1.0 - r, d);
    } else if 1.0 < r {
      MulPositive(r - 1.0, d);
    }
  }

  /** For a non-negative index, `r0` is a probability. */
  lemma NormalReflectanceAtMostOne(n: real)
    requires 0.0 <= n
    ensures NormalReflectance(n) <= 1.0
  {
    var r := (1.0 - n) / (1.0 + n);
    ReflectanceRatioBounded(n);
    if 0.0 <= r {
      MulAtMost(r, r);
    } else {
      MulAtMost(-r, -r);
    }
  }

  /** For cosines in [0, 1] and a non-negative index the coefficient lies between `r0` and one. */
  lemma SchlickIsProbability(cosine: real, n: real)
    requires 0.0 <= cosine <= 1.0 && 0.0 <= n
    ensures NormalReflectance(n) <= Schlick(cosine, n) <= 1.0
  {
    var r0 := NormalReflectance(n);
    var k := Pow5(1.0 - cosine);
    NormalReflectanceAtMostOne(n);
    Pow5UnitInterval(1.0 - cosine);
    MulAtMost(k, 1.0 - r0);
    assert Schlick(cosine, n) == r0 + k * (1.0 - r0);
  }

  // Dispersion.

  /** Cauchy's B and C for the glass, with wavelengths in micrometres. */
  const CAUCHY_B: real := 1.5046
  const CAUCHY_C: real := 0.0042
  /** The wavelength, in micrometres, at which the widened formula keeps the index. */
  const PIVOT_UM: real := 0.54
  /** C widened ten times, and B renormalised to keep the index at the pivot. */
  const WIDE_C: real := CAUCHY_C * 10.0
  const WIDE_B: real := CAUCHY_B + CAUCHY_C / (PIVOT_UM * PIVOT_UM) - WIDE_C / (PIVOT_UM * PIVOT_UM)

  /** Cauchy's equation `B + C / lambda^2`. */
  function Cauchy(b: real, c: real, lambdaUm: real): real
    requires lambdaUm != 0.0
  {
    b + c / (lambdaUm * lambdaUm)
  }

  /** The index of refraction the renderer uses for a wavelength in nanometres. */
  function RefractionIndex(wavelength: int): real
    requires wavelength != 0
  {
    Cauchy(WIDE_B, WIDE_C, wavelength as real / 1000.0)
  }

  /** At 540 nm the widened formula gives the glass's own index. */
  lemma RefractionIndexAtPivot()
    ensures RefractionIndex(540) == Cauchy(CAUCHY_B, CAUCHY_C, PIVOT_UM)
    ensures RefractionIndex(540) == 1.5046 + 0.0042 / (0.54 * 0.54)
  {
    assert 540 as real / 1000.0 == PIVOT_UM;
  }

  /** Away from the pivot the index differs from it ten times as much as the unwidened formula's does. */
  lemma RefractionIndexWidened(wavelength: int)
    requires wavelength != 0
    ensures RefractionIndex(wavelength) - RefractionIndex(540)
         == 10.0 * (Cauchy(CAUCHY_B, CAUCHY_C, wavelength as real / 1000.0) - Cauchy(CAUCHY_B, CAUCHY_C, PIVOT_UM))
  {
    RefractionIndexAtPivot();
  }

  /** Squares of positive numbers grow with them. */
  lemma SquareIncreasing(a: real, b: real)
    requires 0.0 < a < b
    ensures 0.0 < a * a < b * b
  {
    MulPositive(a, a);
    MulPositive(b - a, b + a);
  }

  /** Longer wavelengths bend less: the index strictly decreases over positive wavelengths. */
  lemma RefractionIndexDecreasing(shorter: int, longer: int)
    requires 0 < shorter < longer
    ensures RefractionIndex(longer) < RefractionIndex(shorter)
  {
    var a, b := shorter as real / 1000.0, longer as real / 1000.0;
    SquareIncreasing(a, b);
    var a2, b2 := a * a, b * b;
    assert WIDE_C / b2 < WIDE_C / a2 by {
      assert WIDE_C / b2 * b2 == WIDE_C;
      assert WIDE_C / a2 * a2 == WIDE_C;
      if WIDE_C / a2 <= WIDE_C / b2 {
        calc {
          WIDE_C;
        ==
          WIDE_C / a2 * a2;
        <=  { MulLeftMonotone(WIDE_C / a2, WIDE_C / b2, a2); }
          WIDE_C / b2 * a2;
        <   { MulPositive(WIDE_C / b2, b2 - a2); }
          WIDE_C / b2 * b2;
        ==
          WIDE_C;
        }
      }
    }
  }

  lemma MulLeftMonotone(x: real, y: real, k: real)
    requires x <= y && 0.0 < k
    ensures x * k <= y * k
  {
    if x < y {
      MulPositive(y - x, k);
    }
  }

  /** Every wavelength gives an index above one, so the glass is denser than the air. */
  lemma RefractionIndexAboveOne(wavelength: int)
    requires wavelength != 0
    ensures 1.0 < RefractionIndex(wavelength)
  {
    var l := wavelength as real / 1000.0;
    Square(l);
    assert WIDE_B > 1.0;
    assert 0.0 < WIDE_C / (l * l);
  }

  // hit_glass.

  /**
   * Which way the ray crosses the face: the normal facing the ray, the ratio
   * of indices `ni_over_nt`, and the cosine handed to `schlick`.
   */
  datatype Crossing = Crossing(normal: Vec3, niOverNt: real, cosine: real)

  /** The ray leaves the glass when it travels along the outward normal, and enters it otherwise. */
  function CrossingAt(dir: Vec3, n: Vec3, index: real): Crossing
    requires index != 0.0
  {
    if dir.Dot(n) > 0.0 then Crossing(n.Neg(), index, index * dir.Dot(n))
    else Crossing(n, 1.0 / index, -dir.Dot(n))
  }

  /**
   * The ray `hit_glass` sends on from the unit direction `dir`, the crossing
   * and the cosine handed to `schlick`, with its `my_rand()` draw `u`: reflect
   * when refraction fails, and otherwise reflect with Schlick's coefficient and
   * refract the rest of the time. The outward normal `n` is used for the
   * reflection in both cases.
   */
  function Scatter(rayIn: Ray, p: Vec3, n: Vec3, dir: Vec3, crossing: Crossing, cosine: real,
                   index: real, u: real, sqrt: real -> real): Ray
    requires IsSqrt(sqrt)
    requires index != -1.0
  {
    match Refract(dir, crossing.normal, crossing.niOverNt, sqrt)
    case Some(refracted) =>
      if u < Schlick(cosine, index) then Ray(p, Reflect(dir, n), rayIn.wavelength)
      else Ray(p, refracted, rayIn.wavelength)
    case None => Ray(p, Reflect(dir, n), rayIn.wavelength)
  }

  /** `hit_glass(ray_in, p, n, refraction_index, ray_out)` with its `my_rand()` draw `u`. */
  function HitGlass(rayIn: Ray, p: Vec3, n: Vec3, index: real, u: real, sqrt: real -> real): (out: Ray)
    requires IsSqrt(sqrt)
    requires !rayIn.direction.IsZero()
    requires index != 0.0 && index != -1.0
    ensures out.origin == p && out.wavelength == rayIn.wavelength
  {
    var dir := rayIn.direction.Unit(sqrt);
    var crossing := CrossingAt(dir, n, index);
    Scatter(rayIn, p, n, dir, crossing, crossing.cosine, index, u, sqrt)
  }

  /**
   * The outgoing direction is the mirror image of the incoming unit direction
   * when refraction fails or the draw falls below Schlick's coefficient, and
   * the refracted direction otherwise.
   */
  lemma HitGlassChoice(rayIn: Ray, p: Vec3, n: Vec3, index: real, u: real, sqrt: real -> real)
    requires IsSqrt(sqrt)
    requires !rayIn.direction.IsZero()
    requires index != 0.0 && index != -1.0
    ensures var dir := rayIn.direction.Unit(sqrt);
      var c := CrossingAt(dir, n, index);
      var refracted := Refract(dir, c.normal, c.niOverNt, sqrt);
      var out := HitGlass(rayIn, p, n, index, u, sqrt);
      (refracted.None? || u < Schlick(c.cosine, index) ==> out.direction == Reflect(dir, n))
      && (refracted.Some? && Schlick(c.cosine, index) <= u ==> out.direction == refracted.value)
  {
  }

  /** Reflecting about the normal that faces the ray gives the same direction as reflecting about `n`. */
  lemma HitGlassReflectionSide(dir: Vec3, n: Vec3, index: real)
    requires index != 0.0
    ensures Reflect(dir, CrossingAt(dir, n, index).normal) == Reflect(dir, n)
  {
    ReflectFlippedNormal(dir, n);
  }

  /**
   * Inside the glass the crossing uses the flipped normal, the index itself and
   * the cosine scaled by the index; outside it uses `n`, the reciprocal of the
   * index and the cosine of the angle with `-n`. Either way the normal faces
   * the incoming ray.
   */
  lemma CrossingFacesRay(dir: Vec3, n: Vec3, index: real)
    requires index != 0.0
    ensures dir.Dot(CrossingAt(dir, n, index).normal) <= 0.0
    ensures dir.Dot(n) > 0.0 ==> CrossingAt(dir, n, index).normal == n.Neg()
    ensures dir.Dot(n) > 0.0 ==> CrossingAt(dir, n, index).cosine == index * dir.Dot(n)
    ensures dir.Dot(n) <= 0.0 ==> CrossingAt(dir, n, index).normal == n
    ensures dir.Dot(n) > 0.0 ==> CrossingAt(dir, n, index).niOverNt == index
    ensures dir.Dot(n) <= 0.0 ==> CrossingAt(dir, n, index).niOverNt * index == 1.0
    ensures dir.Dot(n) <= 0.0 ==> CrossingAt(dir, n, index).cosine == -dir.Dot(n)
  {
  }

  /** A ray entering glass denser than air always refracts, so reflection then comes only from Schlick's draw. */
  lemma EnteringAlwaysRefracts(dir: Vec3, n: Vec3, index: real, sqrt: real -> real)
    requires IsSqrt(sqrt)
    requires dir.SquaredLength() == 1.0 && n.SquaredLength() == 1.0
    requires 1.0 < index && dir.Dot(n) <= 0.0
    ensures CrossingAt(dir, n, index).normal == n
    ensures CrossingAt(dir, n, index).niOverNt == 1.0 / index
    ensures Refract(dir, n, 1.0 / index, sqrt).Some?
  {
    RefractEnteringSucceeds(dir, n, 1.0 / index, sqrt);
  }

  /** For a unit normal, the outgoing direction has unit length. */
  lemma HitGlassUnitDirection(rayIn: Ray, p: Vec3, n: Vec3, index: real, u: real, sqrt: real -> real)
    requires IsSqrt(sqrt)
    requires !rayIn.direction.IsZero()
    requires index != 0.0 && index != -1.0
    requires n.SquaredLength() == 1.0
    ensures HitGlass(rayIn, p, n, index, u, sqrt).direction.SquaredLength() == 1.0
  {
    var dir := rayIn.direction.Unit(sqrt);
    UnitIsUnit(rayIn.direction, sqrt);
    var c := CrossingAt(dir, n, index);
    assert c.normal.SquaredLength() == 1.0;
    ReflectPreservesLength(dir, n);
    var refracted := Refract(dir, c.normal, c.niOverNt, sqrt);
    if refracted.Some? {
      RefractUnit(dir, c.normal, c.niOverNt, sqrt);
    }
  }

  // The cosine handed to `schlick` on the way out.

  /** Every sampled wavelength, 380 to 699 nm, gives an index whose square exceeds two. */
  lemma SampledIndexSquareAboveTwo(wavelength: int)
    requires 380 <= wavelength <= 699
    ensures 2.0 < RefractionIndex(wavelength) * RefractionIndex(wavelength)
  {
    var longest := RefractionIndex(699);
    assert 1.45 < longest;
    SquareIncreasing(1.45, longest);
    if wavelength < 699 {
      RefractionIndexDecreasing(wavelength, 699);
      SquareIncreasing(longest, RefractionIndex(wavelength));
    }
  }

  /**
   * Leaving the glass, the cosine handed to `schlick` is the inside cosine
   * scaled by the index. For an index whose square is at least two, as every
   * sampled wavelength's is, that product exceeds one whenever the ray
   * refracts out, so it is not the cosine of any angle.
   */
  lemma ExitCosineAboveOne(dir: Vec3, n: Vec3, index: real, sqrt: real -> real)
    requires IsSqrt(sqrt)
    requires dir.SquaredLength() == 1.0 && n.SquaredLength() == 1.0
    requires 0.0 < index && 2.0 <= index * index
    requires dir.Dot(n) > 0.0
    requires Refract(dir, n.Neg(), index, sqrt).Some?
    ensures 1.0 < CrossingAt(dir, n, index).cosine
  {
    var d := dir.Dot(n);
    var c := index * d;
    assert dir.Dot(n.Neg()) == -d;
    assert Discriminant(dir, n.Neg(), index) == 1.0 - index * index * (1.0 - d * d);
    assert index * index * (d * d) > index * index - 1.0;
    calc {
      c * c;
      (index * d) * (index * d);
      index * index * (d * d);
    }
    assert 1.0 < c * c;
    MulPositive(index, d);
    assert CrossingAt(dir, n, index).cosine == c;
    if c <= 1.0 {
      MulAtMost(c, c);
      assert false;
    }
  }

  /**
   * At every sampled wavelength, a ray that refracts out of the glass hands
   * `schlick` a cosine above one.
   */
  lemma ExitCosineAboveOneSampled(dir: Vec3, n: Vec3, wavelength: int, sqrt: real -> real)
    requires IsSqrt(sqrt)
    requires dir.SquaredLength() == 1.0 && n.SquaredLength() == 1.0
    requires 380 <= wavelength <= 699 && dir.Dot(n) > 0.0
    requires Refract(dir, n.Neg(), RefractionIndex(wavelength), sqrt).Some?
    ensures 1.0 < RefractionIndex(wavelength)
    ensures 1.0 < CrossingAt(dir, n, RefractionIndex(wavelength)).cosine
  {
    RefractionIndexAboveOne(wavelength);
    SampledIndexSquareAboveTwo(wavelength);
    assert 2.0 <= RefractionIndex(wavelength) * RefractionIndex(wavelength);
    ExitCosineAboveOne(dir, n, RefractionIndex(wavelength), sqrt);
  }

  /**
   * A ray leaving the glass head-on with an index in (1.63, 1.64), as at
   * 400 nm (`RefractionIndexViolet`), gets a negative coefficient from
   * `schlick`, so it refracts straight out for every draw in [0, 1) and is
   * never reflected back.
   */
  lemma ExitHeadOnNeverReflects(rayIn: Ray, p: Vec3, index: real, u: real, sqrt: real -> real)
    requires IsSqrt(sqrt)
    requires rayIn.direction.SquaredLength() == 1.0
    requires 1.63 < index < 1.64 && 0.0 <= u
    ensures var n := rayIn.direction;
      Schlick(CrossingAt(n, n, index).cosine, index) < 0.0
      && HitGlass(rayIn, p, n, index, u, sqrt).direction == n
  {
    var n := rayIn.direction;
    SquaredLengthPositive(n);
    SqrtUnique(sqrt, 1.0, 1.0);
    assert n.Unit(sqrt) == n;
    assert n.Dot(n) == 1.0;
    SchlickShortWave(index);
    RefractStraightOut(n, index, sqrt);
  }

  /** At 400 nm the index lies between 1.63 and 1.64. */
  lemma RefractionIndexViolet()
    ensures 1.63 < RefractionIndex(400) < 1.64
  {
    assert 400 as real / 1000.0 == 0.4;
  }

  /** Leaving along a unit outward normal, the ray refracts straight out at any index. */
  lemma RefractStraightOut(n: Vec3, index: real, sqrt: real -> real)
    requires IsSqrt(sqrt)
    requires n.SquaredLength() == 1.0
    ensures Refract(n, n.Neg(), index, sqrt) == Some(n)
  {
    assert n.Dot(n.Neg()) == -1.0;
    assert Discriminant(n, n.Neg(), index) == 1.0;
    SqrtUnique(sqrt, 1.0, 1.0);
    assert n.Sub(n.Neg().Scale(-1.0)) == Vec3(0.0, 0.0, 0.0);
    assert ScaleLeft(index, Vec3(0.0, 0.0, 0.0)) == Vec3(0.0, 0.0, 0.0);
    assert n.Neg().Scale(sqrt(1.0)) == n.Neg();
  }

  /** Schlick's coefficient with the index itself as the cosine is negative for an index in (1.63, 1.64). */
  lemma SchlickShortWave(index: real)
    requires 1.63 < index < 1.64
    ensures Schlick(index, index) < 0.0
  {
    var r := (1.0 - index) / (1.0 + index);
    assert r * (1.0 + index) == 1.0 - index;
    assert -0.25 < r < 0.0;
    MulAtMost(-r, -r);
    var r0 := NormalReflectance(index);
    assert r0 == r * r;
    assert r0 < 0.0625 by {
      MulAtMost(-r * 4.0, -r * 4.0);
      calc { (-r * 4.0) * (-r * 4.0); 16.0 * (r * r); }
    }
    var x := index - 1.0;
    assert 0.63 < x;
    assert 0.063 < x * x * x * x * x by {
      SquareIncreasing(0.63, x);
      var x2 := x * x;
      SquareIncreasing(0.3969, x2);
      MulLeftMonotone(0.15752961, x2 * x2, 0.63);
      MulLeftMonotone(0.63, x, x2 * x2);
      calc { x * x * x * x * x; (x2 * x2) * x; }
    }
    assert Pow5(1.0 - index) == -(x * x * x * x * x);
    assert Schlick(index, index) == r0 - (1.0 - r0) * (x * x * x * x * x);
    MulLeftMonotone(0.9375, 1.0 - r0, x * x * x * x * x);
    MulLeftMonotone(0.063, x * x * x * x * x, 0.9375);
  }

  /**
   * The cosine Schlick's approximation is meant to take, the angle on the air
   * side of the face: entering, the angle of the incoming ray with `-n`;
   * leaving, the angle of the refracted ray with `n`, the root of the
   * discriminant.
   */
  function AirSideCosine(dir: Vec3, n: Vec3, index: real, sqrt: real -> real): real
    requires IsSqrt(sqrt)
  {
    if dir.Dot(n) > 0.0 then sqrt(Discriminant(dir, n.Neg(), index)) else -dir.Dot(n)
  }

  /** `hit_glass` with the air-side cosine handed to `schlick`. */
  function HitGlassAirSide(rayIn: Ray, p: Vec3, n: Vec3, index: real, u: real, sqrt: real -> real): (out: Ray)
    requires IsSqrt(sqrt)
    requires !rayIn.direction.IsZero()
    requires index != 0.0 && index != -1.0
    ensures out.origin == p && out.wavelength == rayIn.wavelength
  {
    var dir := rayIn.direction.Unit(sqrt);
    Scatter(rayIn, p, n, dir, CrossingAt(dir, n, index), AirSideCosine(dir, n, index, sqrt), index, u, sqrt)
  }

  /** Entering the glass the two cosines coincide, so the corrected `hit_glass` agrees with the one as written. */
  lemma HitGlassAirSideAgreesEntering(rayIn: Ray, p: Vec3, n: Vec3, index: real, u: real, sqrt: real -> real)
    requires IsSqrt(sqrt)
    requires !rayIn.direction.IsZero()
    requires index != 0.0 && index != -1.0
    requires rayIn.direction.Unit(sqrt).Dot(n) <= 0.0
    ensures HitGlassAirSide(rayIn, p, n, index, u, sqrt) == HitGlass(rayIn, p, n, index, u, sqrt)
  {
  }

  /** The discriminant of `refract` is at most one when the cosine's square is. */
  lemma DiscriminantAtMostOne(v: Vec3, n: Vec3, eta: real)
    requires v.Dot(n) * v.Dot(n) <= 1.0
    ensures Discriminant(v, n, eta) <= 1.0
  {
    Square(eta);
    MulNonNegative(eta * eta, 1.0 - v.Dot(n) * v.Dot(n));
  }

  /** A non-negative number whose square is at most one is at most one. */
  lemma UnitBelowOne(c: real)
    requires 0.0 <= c && c * c <= 1.0
    ensures c <= 1.0
  {
    if 1.0 < c {
      MulPositive(c - 1.0, c + 1.0);
    }
  }

  /** Leaving, the air-side cosine is that of the refracted ray with the outward normal, in (0, 1]. */
  lemma AirSideCosineLeaving(dir: Vec3, n: Vec3, index: real, sqrt: real -> real)
    requires IsSqrt(sqrt)
    requires dir.SquaredLength() == 1.0 && n.SquaredLength() == 1.0
    requires dir.Dot(n) > 0.0
    requires Refract(dir, n.Neg(), index, sqrt).Some?
    ensures 0.0 < AirSideCosine(dir, n, index, sqrt) <= 1.0
    ensures AirSideCosine(dir, n, index, sqrt) == Refract(dir, n.Neg(), index, sqrt).value.Dot(n)
  {
    var disc := Discriminant(dir, n.Neg(), index);
    assert n.Neg().SquaredLength() == 1.0;
    UnitDotBound(dir, n.Neg());
    DiscriminantAtMostOne(dir, n.Neg(), index);
    SqrtPositive(sqrt, disc);
    assert sqrt(disc) * sqrt(disc) == disc;
    if 1.0 < sqrt(disc) {
      MulPositive(sqrt(disc) - 1.0, sqrt(disc) + 1.0);
    }
    assert AirSideCosine(dir, n, index, sqrt) == sqrt(disc);
    RefractSnell(dir, n.Neg(), index, sqrt);
    var r := Refract(dir, n.Neg(), index, sqrt).value;
    assert r.Dot(n.Neg()) == -r.Dot(n);
  }

  /**
   * With the air-side cosine, Schlick's coefficient lies between `r0` and one
   * whenever the ray can refract, on either side of the face. Leaving, the
   * cosine is positive and is that of the refracted ray with the outward normal.
   */
  lemma AirSideCosineIsProbability(dir: Vec3, n: Vec3, index: real, sqrt: real -> real)
    requires IsSqrt(sqrt)
    requires dir.SquaredLength() == 1.0 && n.SquaredLength() == 1.0
    requires 0.0 < index
    requires Refract(dir, CrossingAt(dir, n, index).normal, CrossingAt(dir, n, index).niOverNt, sqrt).Some?
    ensures 0.0 <= AirSideCosine(dir, n, index, sqrt) <= 1.0
    ensures NormalReflectance(index) <= Schlick(AirSideCosine(dir, n, index, sqrt), index) <= 1.0
    ensures dir.Dot(n) > 0.0 ==>
              0.0 < AirSideCosine(dir, n, index, sqrt)
              && AirSideCosine(dir, n, index, sqrt) == Refract(dir, n.Neg(), index, sqrt).value.Dot(n)
  {
    var d := dir.Dot(n);
    var c := AirSideCosine(dir, n, index, sqrt);
    if d > 0.0 {
      AirSideCosineLeaving(dir, n, index, sqrt);
    } else {
      UnitDotBound(dir, n);
      assert c == -d;
      SquareOfEqual(c, -d);
      UnitBelowOne(c);
    }
    SchlickIsProbability(c, index);
  }
}
