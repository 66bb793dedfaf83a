/**
 * The scene geometry of main.cpp: the 2D edge normal of the prism, the
 * bounded intersection of a ray with one rectangular face, the prism the
 * renderer builds, and the ordered nearest-hit selection over the three faces
 * and the ground plane.
 */
module Geometry {
  import opened Numerics
  import opened Vectors
  import opened Rays

  /** Width of the prism's base. */
  const PRISM_WIDTH: real := 0.3
  /** Hits closer than this are ignored, so a ray does not hit the surface it leaves. */
  const MIN_HIT_DIST: real := 0.001
  /** Faces end at this height above the ground. */
  const PRISM_HEIGHT: real := 2.0

  // Edge normals.

  /** The edge vector `p2 - p1` turned a quarter turn counter-clockwise in the ground plane. */
  function EdgePerpendicular(p1: Vec3, p2: Vec3): Vec3 {
    var v := p2.Sub(p1);
    Vec3(-v.y, v.x, 0.0)
  }

  /** The two vertices differ in the ground plane, so the edge has a direction. */
  predicate DistinctInPlane(p1: Vec3, p2: Vec3) {
    p1.x != p2.x || p1.y != p2.y
  }

  /** `get_2d_normal(p1, p2)`; the edge must not be degenerate, or `unit()` divides by zero. */
  function Get2dNormal(p1: Vec3, p2: Vec3, sqrt: real -> real): Vec3
    requires IsSqrt(sqrt)
    requires DistinctInPlane(p1, p2)
  {
    EdgePerpendicular(p1, p2).Unit(sqrt)
  }

  /** Multiplying by a positive number keeps the sign. */
  lemma SignOfScaled(k: real, a: real)
    requires 0.0 < k
    ensures k * a < 0.0 <==> a < 0.0
    ensures k * a == 0.0 <==> a == 0.0
  {
    if a < 0.0 {
      MulPositive(k, -a);
    } else if 0.0 < a {
      MulPositive(k, a);
    }
  }

  /** The normal lies in the ground plane, has unit length and is perpendicular to the edge. */
  lemma Get2dNormalIsNormal(p1: Vec3, p2: Vec3, sqrt: real -> real)
    requires IsSqrt(sqrt)
    requires DistinctInPlane(p1, p2)
    ensures Get2dNormal(p1, p2, sqrt).z == 0.0
    ensures Get2dNormal(p1, p2, sqrt).SquaredLength() == 1.0
    ensures Get2dNormal(p1, p2, sqrt).Dot(p2.Sub(p1)) == 0.0
  {
    var w := EdgePerpendicular(p1, p2);
    assert w.Dot(p2.Sub(p1)) == 0.0;
    Get2dNormalSide(p1, p2, sqrt, p2.Sub(p1));
    UnitIsUnit(w, sqrt);
    var u := Get2dNormal(p1, p2, sqrt);
    assert u.z * w.Length(sqrt) == 0.0;
    LengthPositive(w, sqrt);
  }

  /** A direction lies on the normal's side of the edge exactly when it does for the unnormalised perpendicular. */
  lemma Get2dNormalSide(p1: Vec3, p2: Vec3, sqrt: real -> real, d: Vec3)
    requires IsSqrt(sqrt)
    requires DistinctInPlane(p1, p2)
    ensures Get2dNormal(p1, p2, sqrt).Dot(d) < 0.0 <==> EdgePerpendicular(p1, p2).Dot(d) < 0.0
    ensures Get2dNormal(p1, p2, sqrt).Dot(d) == 0.0 <==> EdgePerpendicular(p1, p2).Dot(d) == 0.0
  {
    var w := EdgePerpendicular(p1, p2);
    var u := Get2dNormal(p1, p2, sqrt);
    UnitIsUnit(w, sqrt);
    LengthPositive(w, sqrt);
    DotScale(u, w.Length(sqrt), d);
    SignOfScaled(w.Length(sqrt), u.Dot(d));
  }

  // One face.

  /** On the dominant axis of the normal, the point lies between the edge's end points. */
  predicate WithinEdge(q: Vec3, p1: Vec3, p2: Vec3, n: Vec3) {
    if FAbs(n.x) > FAbs(n.y) then FMin(p1.y, p2.y) <= q.y <= FMax(p1.y, p2.y)
    else FMin(p1.x, p2.x) <= q.x <= FMax(p1.x, p2.x)
  }

  /**
   * The ray meets the face through edge `p1`-`p2` with normal `n` at distance
   * `t`: far enough away, on the face's plane, no higher than the prism, and
   * inside the edge's span.
   */
  predicate HitsFaceAt(ray: Ray, p1: Vec3, p2: Vec3, n: Vec3, t: real) {
    var q := ray.PointAt(t);
    t > MIN_HIT_DIST && q.Sub(p1).Dot(n) == 0.0 && q.z <= PRISM_HEIGHT && WithinEdge(q, p1, p2, n)
  }

  /**
   * `intersect_with_prism_side`: the distance along the ray to the face, or
   * -1 when the ray runs parallel to it, meets its plane too close or behind,
   * above the prism, or outside the edge.
   */
  function IntersectWithPrismSide(ray: Ray, p1: Vec3, p2: Vec3, n: Vec3): (r: real)
    ensures ray.direction.Dot(n) == 0.0 ==> r == -1.0
    ensures r == -1.0 || r > MIN_HIT_DIST
  {
    var p := ray.origin.Sub(p1);
    var denom := ray.direction.Dot(n);
    if denom == 0.0 then -1.0
    else
      var t := -(p.Dot(n)) / denom;
      if t > MIN_HIT_DIST then
        var q := ray.PointAt(t);
        if q.z > PRISM_HEIGHT then -1.0
        else if FAbs(n.x) > FAbs(n.y) then
          if p1.y < p2.y then
            if q.y < p1.y || q.y > p2.y then -1.0 else t
          else
            if q.y < p2.y || q.y > p1.y then -1.0 else t
        else
          if p1.x < p2.x then
            if q.x < p1.x || q.x > p2.x then -1.0 else t
          else
            if q.x < p2.x || q.x > p1.x then -1.0 else t
      else -1.0
  }

  /** Walking `t` along the ray changes the signed distance to the plane by `t (d . n)`. */
  lemma PlaneOffset(ray: Ray, p1: Vec3, n: Vec3, t: real)
    ensures ray.PointAt(t).Sub(p1).Dot(n) == ray.origin.Sub(p1).Dot(n) + t * ray.direction.Dot(n)
  {
  }

  lemma DivCancel(a: real, b: real)
    requires b != 0.0
    ensures a / b * b == a
  {
  }

  /** The root of `a + t b` for nonzero `b`. */
  lemma LinearRoot(a: real, b: real, t: real)
    requires b != 0.0
    ensures a + t * b == 0.0 <==> t == -a / b
  {
    DivCancel(-a, b);
    if a + t * b == 0.0 {
      assert t * b == -a / b * b;
      assert (t - -a / b) * b == 0.0;
    }
  }

  /** A distance other than -1 is a hit on the face. */
  lemma IntersectSound(ray: Ray, p1: Vec3, p2: Vec3, n: Vec3)
    requires IntersectWithPrismSide(ray, p1, p2, n) != -1.0
    ensures HitsFaceAt(ray, p1, p2, n, IntersectWithPrismSide(ray, p1, p2, n))
  {
    var a := ray.origin.Sub(p1).Dot(n);
    var b := ray.direction.Dot(n);
    var t := IntersectWithPrismSide(ray, p1, p2, n);
    assert t == -a / b;
    LinearRoot(a, b, t);
    PlaneOffset(ray, p1, n, t);
  }

  /** A ray that is not parallel to the face and meets it is reported at that distance. */
  lemma IntersectComplete(ray: Ray, p1: Vec3, p2: Vec3, n: Vec3, t: real)
    requires ray.direction.Dot(n) != 0.0
    requires HitsFaceAt(ray, p1, p2, n, t)
    ensures IntersectWithPrismSide(ray, p1, p2, n) == t
  {
    var a := ray.origin.Sub(p1).Dot(n);
    var b := ray.direction.Dot(n);
    PlaneOffset(ray, p1, n, t);
    LinearRoot(a, b, t);
  }

  // The prism.

  /**
   * The renderer's triangular prism: vertices clockwise from the lower left,
   * the outward normal of each face, and the offset that moves the prism
   * (and the light source) down.
   */
  datatype Prism = Prism(p0: Vec3, p1: Vec3, p2: Vec3, n01: Vec3, n12: Vec3, n20: Vec3, offset: Vec3)

  /** Height of the apex above the base, `PRISM_WIDTH * sqrt(3) / 2`. */
  function ApexHeight(sqrt: real -> real): real {
    PRISM_WIDTH * sqrt(3.0) / 2.0
  }

  /** The prism `render_image` builds: an equilateral triangle, moved down by 0.4 of its height. */
  function SourcePrism(sqrt: real -> real): Prism
    requires IsSqrt(sqrt)
  {
    var h := ApexHeight(sqrt);
    var offset := Vec3(0.0, -h * 0.4, 0.0);
    var p0 := Vec3(-PRISM_WIDTH / 2.0, 0.0, 0.0).Add(offset);
    var p1 := Vec3(0.0, h, 0.0).Add(offset);
    var p2 := Vec3(PRISM_WIDTH / 2.0, 0.0, 0.0).Add(offset);
    Prism(p0, p1, p2, Get2dNormal(p0, p1, sqrt), Get2dNormal(p1, p2, sqrt), Get2dNormal(p2, p0, sqrt), offset)
  }

  /** `(p0 + p1 + p2) / 3`. */
  function Centroid(prism: Prism): Vec3 {
    prism.p0.Add(prism.p1).Add(prism.p2).DivScalar(3.0)
  }

  /** The apex is above the base. */
  lemma ApexHeightPositive(sqrt: real -> real)
    requires IsSqrt(sqrt)
    ensures 0.0 < ApexHeight(sqrt)
  {
    SqrtPositive(sqrt, 3.0);
  }

  /**
   * Every normal of the source prism lies in the ground plane, has unit length
   * and points away from the centroid, which is what `hit_glass` assumes of
   * the normal it is given.
   */
  lemma SourcePrismOutward(sqrt: real -> real)
    requires IsSqrt(sqrt)
    ensures var prism := SourcePrism(sqrt);
      var c := Centroid(prism);
      c.Sub(prism.p0).Dot(prism.n01) < 0.0
      && c.Sub(prism.p1).Dot(prism.n12) < 0.0
      && c.Sub(prism.p2).Dot(prism.n20) < 0.0
    ensures var prism := SourcePrism(sqrt);
      prism.n01.z == 0.0 && prism.n12.z == 0.0 && prism.n20.z == 0.0
      && prism.n01.SquaredLength() == 1.0 && prism.n12.SquaredLength() == 1.0 && prism.n20.SquaredLength() == 1.0
  {
    var prism := SourcePrism(sqrt);
    var c := Centroid(prism);
    ApexHeightPositive(sqrt);
    Get2dNormalSide(prism.p0, prism.p1, sqrt, c.Sub(prism.p0));
    Get2dNormalSide(prism.p1, prism.p2, sqrt, c.Sub(prism.p1));
    Get2dNormalSide(prism.p2, prism.p0, sqrt, c.Sub(prism.p2));
    Get2dNormalIsNormal(prism.p0, prism.p1, sqrt);
    Get2dNormalIsNormal(prism.p1, prism.p2, sqrt);
    Get2dNormalIsNormal(prism.p2, prism.p0, sqrt);
  }

  /** The source prism is equilateral with side `PRISM_WIDTH`, and its centroid is on the y axis. */
  lemma SourcePrismEquilateral(sqrt: real -> real)
    requires IsSqrt(sqrt)
    ensures var prism := SourcePrism(sqrt);
      prism.p1.Sub(prism.p0).SquaredLength() == PRISM_WIDTH * PRISM_WIDTH
      && prism.p2.Sub(prism.p1).SquaredLength() == PRISM_WIDTH * PRISM_WIDTH
      && prism.p0.Sub(prism.p2).SquaredLength() == PRISM_WIDTH * PRISM_WIDTH
      && Centroid(prism).x == 0.0
  {
    var s := sqrt(3.0);
    assert s * s == 3.0;
    var h := ApexHeight(sqrt);
    calc {
      h * h;
    ==
      (0.15 * s) * (0.15 * s);
    ==
      0.0225 * (s * s);
    ==
      0.0675;
    }
  }

  // The nearest hit.

  /** One surface the ray is intersected with: its distance, the point there, its normal, and whether its own test passed. */
  datatype Candidate = Candidate(t: real, p: Vec3, n: Vec3, ok: bool)

  /** The surface kept so far: `best_t`, `best_p`, `best_n`, and `best_obj` (0 to 2 the faces, 3 the ground). */
  datatype Hit = Hit(t: real, p: Vec3, n: Vec3, obj: int)

  /** `best_t`, which starts at the largest float. */
  function BestT(best: Option<Hit>): real {
    if best.None? then FLT_MAX else best.value.t
  }

  /** A face candidate: the face's distance, and the z > 0 test on its point. */
  function FaceCandidate(ray: Ray, p1: Vec3, p2: Vec3, n: Vec3): Candidate {
    var t := IntersectWithPrismSide(ray, p1, p2, n);
    Candidate(t, ray.PointAt(t), n, ray.PointAt(t).z > 0.0)
  }

  /** The ground candidate: the plane z = 0, considered only when the ray is not level; it has no height test. */
  function GroundCandidate(ray: Ray): Candidate {
    var dz := ray.direction.z;
    if dz != 0.0 then
      var t := -ray.origin.z / dz;
      Candidate(t, ray.PointAt(t), Vec3(0.0, 0.0, 1.0), true)
    else
      Candidate(-1.0, ray.origin, Vec3(0.0, 0.0, 1.0), false)
  }

  /** The candidates in the order the renderer tests them: faces 0-1, 1-2, 2-0, then the ground. */
  function Candidates(ray: Ray, prism: Prism): (cs: seq<Candidate>)
    ensures |cs| == 4
  {
    [FaceCandidate(ray, prism.p0, prism.p1, prism.n01),
     FaceCandidate(ray, prism.p1, prism.p2, prism.n12),
     FaceCandidate(ray, prism.p2, prism.p0, prism.n20),
     GroundCandidate(ray)]
  }

  /** Candidate `k` replaces the best so far when its own test passes and it is strictly nearer. */
  function Consider(best: Option<Hit>, c: Candidate, k: int): Option<Hit> {
    if c.t > MIN_HIT_DIST && c.t < BestT(best) && c.ok then Some(Hit(c.t, c.p, c.n, k)) else best
  }

  /** The candidates considered in order, starting from no hit. */
  function Nearest(cs: seq<Candidate>): Option<Hit>
    decreases |cs|
  {
    if |cs| == 0 then None else Consider(Nearest(cs[..|cs| - 1]), cs[|cs| - 1], |cs| - 1)
  }

  /** The nearest-hit block of `render_image`; `None` is `best_obj == -1`. */
  function NearestHit(ray: Ray, prism: Prism): Option<Hit> {
    Nearest(Candidates(ray, prism))
  }

  /** A candidate that would win against no other: its test passes and its distance is in (MIN_HIT_DIST, FLT_MAX). */
  predicate Eligible(c: Candidate) {
    c.ok && MIN_HIT_DIST < c.t < FLT_MAX
  }

  /**
   * The selection returns no hit exactly when no candidate is eligible;
   * otherwise it returns an eligible candidate with the least distance, and
   * every earlier candidate is ineligible or strictly farther, so ties go to
   * the earliest.
   */
  lemma {:induction false} NearestIsLeast(cs: seq<Candidate>)
    ensures Nearest(cs).None? <==> forall k :: 0 <= k < |cs| ==> !Eligible(cs[k])
    ensures Nearest(cs).Some? ==>
      var h := Nearest(cs).value;
      0 <= h.obj < |cs| && Eligible(cs[h.obj])
      && h.t == cs[h.obj].t && h.p == cs[h.obj].p && h.n == cs[h.obj].n
      && (forall k :: 0 <= k < |cs| && Eligible(cs[k]) ==> h.t <= cs[k].t)
      && (forall k :: 0 <= k < h.obj && Eligible(cs[k]) ==> h.t < cs[k].t)
    decreases |cs|
  {
    if |cs| > 0 {
      var init := cs[..|cs| - 1];
      NearestIsLeast(init);
      assert forall k :: 0 <= k < |init| ==> init[k] == cs[k];
    }
  }

  /** The ray escapes exactly when no face and not the ground passes its test at a usable distance. */
  lemma NearestHitNone(ray: Ray, prism: Prism)
    ensures NearestHit(ray, prism).None? <==> forall k :: 0 <= k < 4 ==> !Eligible(Candidates(ray, prism)[k])
  {
    NearestIsLeast(Candidates(ray, prism));
  }

  /**
   * A face that wins was hit above the ground on its plane; the ground when it
   * wins was hit at height zero.
   */
  lemma NearestHitSurface(ray: Ray, prism: Prism)
    requires NearestHit(ray, prism).Some?
    ensures var h := NearestHit(ray, prism).value;
      h.p == ray.PointAt(h.t) && MIN_HIT_DIST < h.t < FLT_MAX && 0 <= h.obj <= 3
      && (h.obj == 0 ==> h.n == prism.n01 && HitsFaceAt(ray, prism.p0, prism.p1, prism.n01, h.t))
      && (h.obj == 1 ==> h.n == prism.n12 && HitsFaceAt(ray, prism.p1, prism.p2, prism.n12, h.t))
      && (h.obj == 2 ==> h.n == prism.n20 && HitsFaceAt(ray, prism.p2, prism.p0, prism.n20, h.t))
      && (h.obj < 3 ==> 0.0 < h.p.z <= PRISM_HEIGHT)
      && (h.obj == 3 ==> h.n == Vec3(0.0, 0.0, 1.0) && h.p.z == 0.0)
  {
    var cs := Candidates(ray, prism);
    NearestIsLeast(cs);
    var h := NearestHit(ray, prism).value;
    if h.obj == 0 {
      IntersectSound(ray, prism.p0, prism.p1, prism.n01);
    } else if h.obj == 1 {
      IntersectSound(ray, prism.p1, prism.p2, prism.n12);
    } else if h.obj == 2 {
      IntersectSound(ray, prism.p2, prism.p0, prism.n20);
    } else {
      GroundHitAtZero(ray);
    }
  }

  /**
   * The candidates are, in this order, the faces 0-1, 1-2 and 2-0 with their
   * normals and then the ground: a face's distance is -1 or a hit on that
   * face, and its test is the z > 0 test on its point; the ground's test is
   * that the ray is not level, and a ground candidate that passes lies at
   * height zero.
   */
  lemma CandidatesInOrder(ray: Ray, prism: Prism)
    ensures var cs := Candidates(ray, prism);
      cs[0].n == prism.n01 && cs[1].n == prism.n12 && cs[2].n == prism.n20
      && cs[3].n == Vec3(0.0, 0.0, 1.0)
      && (cs[0].t == -1.0 || HitsFaceAt(ray, prism.p0, prism.p1, prism.n01, cs[0].t))
      && (cs[1].t == -1.0 || HitsFaceAt(ray, prism.p1, prism.p2, prism.n12, cs[1].t))
      && (cs[2].t == -1.0 || HitsFaceAt(ray, prism.p2, prism.p0, prism.n20, cs[2].t))
      && (forall k :: 0 <= k < 3 ==> (cs[k].ok <==> cs[k].p.z > 0.0))
      && (cs[3].ok <==> ray.direction.z != 0.0)
      && (cs[3].ok ==> cs[3].p.z == 0.0)
      && (forall k :: 0 <= k < 4 && cs[k].ok ==> cs[k].p == ray.PointAt(cs[k].t))
  {
    var cs := Candidates(ray, prism);
    if cs[0].t != -1.0 {
      IntersectSound(ray, prism.p0, prism.p1, prism.n01);
    }
    if cs[1].t != -1.0 {
      IntersectSound(ray, prism.p1, prism.p2, prism.n12);
    }
    if cs[2].t != -1.0 {
      IntersectSound(ray, prism.p2, prism.p0, prism.n20);
    }
    if ray.direction.z != 0.0 {
      GroundHitAtZero(ray);
    }
  }

  /** The ground candidate of a ray that is not level lies on the ground plane. */
  lemma GroundHitAtZero(ray: Ray)
    requires ray.direction.z != 0.0
    ensures GroundCandidate(ray).p.z == 0.0
  {
    var t := -ray.origin.z / ray.direction.z;
    DivCancel(-ray.origin.z, ray.direction.z);
    assert ray.PointAt(t).z == ray.origin.z + t * ray.direction.z;
  }
}
