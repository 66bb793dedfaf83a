/**
 * The ray of Ray.h: an origin, a direction that is not necessarily of unit
 * length, and the integer wavelength tag in nanometres that the renderer
 * attaches to every ray and carries unchanged across bounces.
 */
module Rays {
  import opened Vectors

  datatype Ray = Ray(origin: Vec3, direction: Vec3, wavelength: int) {

    /** `point_at(t) = origin + t * direction`. */
    function PointAt(t: real): Vec3 {
      origin.Add(ScaleLeft(t, direction))
    }
  }

  /** The constructor stores its arguments as given; the direction is not normalised. */
  lemma ConstructorKeepsArguments(origin: Vec3, direction: Vec3, wavelength: int)
    ensures Ray(origin, direction, wavelength).origin == origin
    ensures Ray(origin, direction, wavelength).direction == direction
    ensures Ray(origin, direction, wavelength).wavelength == wavelength
  {
  }

  /** Parameter zero is the origin. */
  lemma PointAtZero(ray: Ray)
    ensures ray.PointAt(0.0) == ray.origin
  {
  }

  /** Walking `s` and then `t` along the direction is walking `s + t`. */
  lemma PointAtAdditive(ray: Ray, s: real, t: real)
    ensures ray.PointAt(s).Add(ScaleLeft(t, ray.direction)) == ray.PointAt(s + t)
  {
  }

  /** The offset of `point_at(t)` from the origin is `t` times the direction. */
  lemma PointAtOffset(ray: Ray, t: real)
    ensures ray.PointAt(t).Sub(ray.origin) == ScaleLeft(t, ray.direction)
  {
  }
}
