/**
 * The free functions of Vec3.cpp: Snell refraction with its total internal
 * reflection branch, the HSV to RGB conversion, and the two rejection
 * samplers, which take their uniform draws as a sequence instead of calling
 * the thread-local generator.
 */
module VectorUtil {
  import opened Numerics
  import opened Vectors

  // Refraction.

  /** `1 - eta^2 (1 - (v . n)^2)`, the squared cosine of the transmitted angle. */
  function Discriminant(v: Vec3, n: Vec3, eta: real): real {
    var dt := v.Dot(n);
    1.0 - eta * eta * (1.0 - dt * dt)
  }

  /**
   * `refract(v, n, ni_over_nt, refracted)`. `None` is the `false` return,
   * total internal reflection, where the out-parameter is not written;
   * `Some(r)` is the `true` return with `r` written to it.
   */
  function Refract(v: Vec3, n: Vec3, eta: real, sqrt: real -> real): (r: Option<Vec3>)
    requires IsSqrt(sqrt)
    ensures r.None? <==> Discriminant(v, n, eta) <= 0.0
  {
    var dt := v.Dot(n);
    var disc := Discriminant(v, n, eta);
    if disc > 0.0 then
      Some(ScaleLeft(eta, v.Sub(n.Scale(dt))).Sub(n.Scale(sqrt(disc))))
    else
      None
  }

  /** At equal indices a head-on ray passes straight through. */
  lemma RefractHeadOn(v: Vec3, n: Vec3, sqrt: real -> real)
    requires IsSqrt(sqrt)
    requires n.SquaredLength() == 1.0 && v == n.Neg()
    ensures Refract(v, n, 1.0, sqrt) == Some(v)
  {
    var dt := v.Dot(n);
    assert dt == -1.0;
    assert Discriminant(v, n, 1.0) == 1.0;
    SqrtUnique(sqrt, 1.0, 1.0);
    assert ScaleLeft(1.0, v.Sub(n.Scale(dt))) == Vec3(v.x + n.x, v.y + n.y, v.z + n.z);
    assert n.Scale(sqrt(1.0)) == n;
  }

  /** For unit `v` and `n` a refracted direction is a unit vector on the far side of the surface. */
  lemma {:induction false} RefractUnit(v: Vec3, n: Vec3, eta: real, sqrt: real -> real)
    requires IsSqrt(sqrt)
    requires v.SquaredLength() == 1.0 && n.SquaredLength() == 1.0
    requires Refract(v, n, eta, sqrt).Some?
    ensures Refract(v, n, eta, sqrt).value.SquaredLength() == 1.0
    ensures Refract(v, n, eta, sqrt).value.Dot(n) < 0.0
  {
    var dt := v.Dot(n);
    var disc := Discriminant(v, n, eta);
    var s := sqrt(disc);
    var w := v.Sub(n.Scale(dt));
    var a := ScaleLeft(eta, w);
    var r := a.Sub(n.Scale(s));
    assert Refract(v, n, eta, sqrt).value == r;
    RootPositive(s, disc);

    // The tangential part `w` is orthogonal to `n` and has squared length `1 - dt^2`.
    DotSub(v, n.Scale(dt), n);
    DotScale(n, dt, n);
    assert w.Dot(n) == 0.0 by {
      calc {
        w.Dot(n);
      ==
        dt - dt * n.SquaredLength();
      ==
        0.0;
      }
    }
    SubScaledSquaredLength(v, n, dt);
    assert w.SquaredLength() == 1.0 - dt * dt by {
      calc {
        w.SquaredLength();
      ==
        v.SquaredLength() - 2.0 * dt * dt + dt * dt * n.SquaredLength();
      ==
        1.0 - dt * dt;
      }
    }

    // Hence the normal component of `r` is `-s` ...
    DotSub(a, n.Scale(s), n);
    DotScale(w, eta, n);
    DotScale(n, s, n);
    calc {
      r.Dot(n);
    ==
      eta * w.Dot(n) - s * n.SquaredLength();
    ==
      -s;
    <
      0.0;
    }

    // ... and its squared length is `eta^2 (1 - dt^2) + disc = 1`.
    SubScaledSquaredLength(a, n, s);
    ScaledSquaredLength(w, eta);
    calc {
      r.SquaredLength();
    ==
      a.SquaredLength() - 2.0 * s * a.Dot(n) + s * s * n.SquaredLength();
    ==
      w.SquaredLength() * (eta * eta) - 2.0 * s * (eta * w.Dot(n)) + s * s;
    ==
      (1.0 - dt * dt) * (eta * eta) + disc;
    ==
      1.0;
    }
  }

  /**
   * Snell's law for a unit normal: the refracted direction's part along the
   * surface is `eta` times the incoming one's, and its part along the normal
   * is minus the root of the discriminant, so it leaves on the far side.
   */
  lemma {:induction false} RefractSnell(v: Vec3, n: Vec3, eta: real, sqrt: real -> real)
    requires IsSqrt(sqrt)
    requires n.SquaredLength() == 1.0
    requires Refract(v, n, eta, sqrt).Some?
    ensures var r := Refract(v, n, eta, sqrt).value;
      r.Dot(n) == -sqrt(Discriminant(v, n, eta))
      && r.Sub(n.Scale(r.Dot(n))) == ScaleLeft(eta, v.Sub(n.Scale(v.Dot(n))))
  {
    var dt := v.Dot(n);
    var s := sqrt(Discriminant(v, n, eta));
    var w := v.Sub(n.Scale(dt));
    var a := ScaleLeft(eta, w);
    var r := a.Sub(n.Scale(s));
    assert Refract(v, n, eta, sqrt).value == r;

    DotSub(v, n.Scale(dt), n);
    DotScale(n, dt, n);
    assert w.Dot(n) == 0.0 by {
      calc {
        w.Dot(n);
      ==
        dt - dt * n.SquaredLength();
      ==
        0.0;
      }
    }
    DotSub(a, n.Scale(s), n);
    DotScale(w, eta, n);
    DotScale(n, s, n);
    calc {
      r.Dot(n);
    ==
      eta * w.Dot(n) - s * n.SquaredLength();
    ==
      -s;
    }
    assert r.Sub(n.Scale(-s)) == a;
  }

  /** Entering a denser medium (`|eta| < 1`) with unit `v` and `n` never reflects totally. */
  lemma RefractEnteringSucceeds(v: Vec3, n: Vec3, eta: real, sqrt: real -> real)
    requires IsSqrt(sqrt)
    requires v.SquaredLength() == 1.0 && n.SquaredLength() == 1.0
    requires -1.0 < eta < 1.0
    ensures Refract(v, n, eta, sqrt).Some?
  {
    var dt := v.Dot(n);
    UnitDotBound(v, n);
    Square(dt);
    Square(eta);
    MulAtMost(1.0 - dt * dt, eta * eta);
    assert eta * eta < 1.0 by {
      if 0.0 <= eta {
        MulAtMost(eta, eta);
      } else {
        MulAtMost(-eta, -eta);
      }
    }
    calc {
      Discriminant(v, n, eta);
    ==
      1.0 - eta * eta * (1.0 - dt * dt);
    ==
      1.0 - (1.0 - dt * dt) * (eta * eta);
    >
      0.0;
    }
  }

  // HSV to RGB.

  /** The six-way switch on the hue section; every section other than 0 to 4 takes the `default` arm. */
  function HueSection(section: int, v: real, p: real, q: real, t: real): Vec3 {
    if section == 0 then Vec3(v, t, p)
    else if section == 1 then Vec3(q, v, p)
    else if section == 2 then Vec3(p, v, t)
    else if section == 3 then Vec3(p, q, v)
    else if section == 4 then Vec3(t, p, v)
    else Vec3(v, p, q)
  }

  /** The colour at position `f` within hue section `section`, with the channels `p`, `q` and `t` of the conversion. */
  function SectorColour(section: int, f: real, s: real, v: real): Vec3 {
    HueSection(section, v, v * (1.0 - s), v * (1.0 - s * f), v * (1.0 - s * (1.0 - f)))
  }

  /** Converts a wrapped hue `hw` and the saturation and value to RGB, from "Find section" on. */
  function HsvSector(hw: real, s: real, v: real): Vec3 {
    var h6 := hw * 6.0;
    var section := Trunc(h6);
    SectorColour(section, h6 - section as real, s, v)
  }

  /**
   * `hsv2rgb` as written: no saturation is gray, and otherwise the hue is
   * "wrapped" with `fmodf(h, 1)`, which keeps the sign of a negative hue.
   */
  function Hsv2Rgb(hsv: Vec3): Vec3 {
    var h, s, v := hsv.x, hsv.y, hsv.z;
    if s <= 0.0 then Vec3(v, v, v)
    else HsvSector(FMod1(h), s, v)
  }

  /**
   * `hsv2rgb` with the hue wrapped into [0, 1) as its comment intends,
   * by subtracting the floor.
   */
  function Hsv2RgbWrapped(hsv: Vec3): Vec3 {
    var h, s, v := hsv.x, hsv.y, hsv.z;
    if s <= 0.0 then Vec3(v, v, v)
    else HsvSector(h - h.Floor as real, s, v)
  }

  /** No saturation gives gray at the value. */
  lemma Hsv2RgbGray(h: real, s: real, v: real)
    requires s <= 0.0
    ensures Hsv2Rgb(Vec3(h, s, v)) == Vec3(v, v, v)
  {
  }

  predicate InValueRange(c: Vec3, v: real) {
    0.0 <= c.x <= v && 0.0 <= c.y <= v && 0.0 <= c.z <= v
    && (c.x == v || c.y == v || c.z == v)
  }

  lemma ScaledFraction(v: real, a: real)
    requires 0.0 <= v && 0.0 <= a <= 1.0
    ensures 0.0 <= v * a <= v
  {
    assert v * a <= v * 1.0 by {
      assert v * (1.0 - a) >= 0.0;
    }
  }

  /** A channel value lies in [0, v]. */
  predicate InChannel(c: real, v: real) {
    0.0 <= c <= v
  }

  /** One channel `v * (1 - s * g)` of the conversion, for `s` and `g` in [0, 1]. */
  lemma ChannelInRange(v: real, s: real, g: real)
    requires 0.0 <= v && 0.0 <= s <= 1.0 && 0.0 <= g <= 1.0
    ensures InChannel(v * (1.0 - s * g), v)
  {
    MulAtMost(s, g);
    ScaledFraction(v, 1.0 - s * g);
  }

  lemma HueSectionInRange(section: int, v: real, p: real, q: real, t: real)
    requires InChannel(p, v) && InChannel(q, v) && InChannel(t, v)
    ensures InValueRange(HueSection(section, v, p, q, t), v)
  {
  }

  /** The channels of one section, for a fractional position `f` in [0, 1]. */
  lemma SectorChannelsInRange(section: int, f: real, s: real, v: real)
    requires 0.0 <= f <= 1.0 && 0.0 <= s <= 1.0 && 0.0 <= v
    ensures InValueRange(SectorColour(section, f, s, v), v)
  {
    ChannelInRange(v, s, 1.0);
    assert v * (1.0 - s * 1.0) == v * (1.0 - s);
    ChannelInRange(v, s, f);
    ChannelInRange(v, s, 1.0 - f);
    HueSectionInRange(section, v, v * (1.0 - s), v * (1.0 - s * f), v * (1.0 - s * (1.0 - f)));
  }

  /** For a hue in [0, 1), every channel lies in [0, v] and the largest one is `v`. */
  lemma HsvSectorInRange(hw: real, s: real, v: real)
    requires 0.0 <= hw < 1.0 && 0.0 <= s <= 1.0 && 0.0 <= v
    ensures InValueRange(HsvSector(hw, s, v), v)
  {
    var section := Trunc(hw * 6.0);
    SectorChannelsInRange(section, hw * 6.0 - section as real, s, v);
  }

  /** `hsv2rgb` keeps every channel in [0, v], with one channel at `v`, for a hue in [0, 1). */
  lemma Hsv2RgbInRange(h: real, s: real, v: real)
    requires 0.0 <= h < 1.0 && 0.0 <= s <= 1.0 && 0.0 <= v
    ensures InValueRange(Hsv2Rgb(Vec3(h, s, v)), v)
  {
    if 0.0 < s {
      HsvSectorInRange(FMod1(h), s, v);
    }
  }

  /** A negative hue escapes the "wrap": hue -0.25 at full saturation and value gives blue 1.5. */
  lemma Hsv2RgbNegativeHueOverflows()
    ensures Hsv2Rgb(Vec3(-0.25, 1.0, 1.0)) == Vec3(1.0, 0.0, 1.5)
    ensures !InValueRange(Hsv2Rgb(Vec3(-0.25, 1.0, 1.0)), 1.0)
  {
    assert FMod1(-0.25) == -0.25;
    assert Trunc(-1.5) == -1;
  }

  /** With the hue wrapped by the floor, every hue keeps the channels in [0, v], one at `v`. */
  lemma Hsv2RgbWrappedInRange(h: real, s: real, v: real)
    requires 0.0 <= s <= 1.0 && 0.0 <= v
    ensures InValueRange(Hsv2RgbWrapped(Vec3(h, s, v)), v)
  {
    if 0.0 < s {
      HsvSectorInRange(h - h.Floor as real, s, v);
    }
  }

  /** The wrapped conversion is periodic in the hue with period one ... */
  lemma Hsv2RgbWrappedPeriodic(h: real, s: real, v: real)
    ensures Hsv2RgbWrapped(Vec3(h + 1.0, s, v)) == Hsv2RgbWrapped(Vec3(h, s, v))
  {
    assert (h + 1.0).Floor == h.Floor + 1;
  }

  /** ... and agrees with the code as written on non-negative hues. */
  lemma Hsv2RgbWrappedAgrees(h: real, s: real, v: real)
    requires 0.0 <= h
    ensures Hsv2RgbWrapped(Vec3(h, s, v)) == Hsv2Rgb(Vec3(h, s, v))
  {
  }

  // Rejection sampling.

  /** The `k`-th candidate of `random_in_unit_sphere`: `2 * (d0, d1, d2) - (1, 1, 1)`. */
  function SphereCandidate(draws: seq<real>, k: nat): Vec3
    requires 3 * k + 3 <= |draws|
  {
    ScaleLeft(2.0, Vec3(draws[3 * k], draws[3 * k + 1], draws[3 * k + 2])).Sub(Ones)
  }

  /**
   * `random_in_unit_sphere`: draws triples until a candidate lies in the
   * closed unit ball. With a finite supply of draws it returns `None` when
   * the supply runs out; `used` is how many draws it consumed.
   */
  method RandomInUnitSphere(draws: seq<real>) returns (p: Option<Vec3>, used: nat)
    ensures used <= |draws| && used % 3 == 0
    ensures p.Some? ==> 3 <= used && p.value == SphereCandidate(draws, used / 3 - 1)
    ensures p.Some? ==> p.value.SquaredLength() <= 1.0
    ensures p.None? ==> |draws| - used < 3
    ensures forall k :: 0 <= k < used / 3 && (p.None? || k < used / 3 - 1) ==>
              SphereCandidate(draws, k).SquaredLength() > 1.0
  {
    var k := 0;
    while 3 * k + 3 <= |draws|
      invariant 3 * k <= |draws|
      invariant forall j :: 0 <= j < k ==> SphereCandidate(draws, j).SquaredLength() > 1.0
    {
      var c := SphereCandidate(draws, k);
      if c.SquaredLength() <= 1.0 {
        return Some(c), 3 * k + 3;
      }
      k := k + 1;
    }
    return None, 3 * k;
  }

  /** The `k`-th candidate of `random_in_unit_disc`: `2 * (d0, d1, 0) - (1, 1, 0)`. */
  function DiscCandidate(draws: seq<real>, k: nat): Vec3
    requires 2 * k + 2 <= |draws|
  {
    ScaleLeft(2.0, Vec3(draws[2 * k], draws[2 * k + 1], 0.0)).Sub(Vec3(1.0, 1.0, 0.0))
  }

  /** `random_in_unit_disc`: like the sphere sampler, in the plane z = 0, two draws per candidate. */
  method RandomInUnitDisc(draws: seq<real>) returns (p: Option<Vec3>, used: nat)
    ensures used <= |draws| && used % 2 == 0
    ensures p.Some? ==> 2 <= used && p.value == DiscCandidate(draws, used / 2 - 1)
    ensures p.Some? ==> p.value.z == 0.0 && p.value.SquaredLength() <= 1.0
    ensures p.None? ==> |draws| - used < 2
    ensures forall k :: 0 <= k < used / 2 && (p.None? || k < used / 2 - 1) ==>
              DiscCandidate(draws, k).SquaredLength() > 1.0
  {
    var k := 0;
    while 2 * k + 2 <= |draws|
      invariant 2 * k <= |draws|
      invariant forall j :: 0 <= j < k ==> DiscCandidate(draws, j).SquaredLength() > 1.0
    {
      var c := DiscCandidate(draws, k);
      if c.SquaredLength() <= 1.0 {
        return Some(c), 2 * k + 2;
      }
      k := k + 1;
    }
    return None, 2 * k;
  }

  /** Draws in [0, 1) put every sphere candidate in the cube [-1, 1)^3. */
  lemma SphereCandidateInCube(draws: seq<real>, k: nat)
    requires 3 * k + 3 <= |draws|
    requires forall i :: 0 <= i < |draws| ==> 0.0 <= draws[i] < 1.0
    ensures var c := SphereCandidate(draws, k);
      -1.0 <= c.x < 1.0 && -1.0 <= c.y < 1.0 && -1.0 <= c.z < 1.0
  {
  }
}
