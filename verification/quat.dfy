/**
 * The quaternion `x i + y j + z k + w` of Quat.h: the identity rotation,
 * construction from a vector part and a scalar, conjugate, inverse, squared
 * length, the Hamilton product with another quaternion or with a vector,
 * division by a scalar and extraction of the vector part.
 */
module Quaternions {
  import opened Numerics
  import opened Vectors

  datatype Quat = Quat(x: real, y: real, z: real, w: real) {

    /** `vec3()`: the vector part. */
    function VectorPart(): Vec3 {
      Vec3(x, y, z)
    }

    /** `conj()`: negates the vector part. */
    function Conj(): Quat {
      Quat(-x, -y, -z, w)
    }

    function SquaredLength(): real {
      x * x + y * y + z * z + w * w
    }

    /** `operator*(const Quat &)`, the Hamilton product `this * o`. */
    function Mul(o: Quat): Quat {
      Quat(w * o.x + o.w * x + y * o.z - z * o.y,
           w * o.y + o.w * y + z * o.x - x * o.z,
           w * o.z + o.w * z + x * o.y - y * o.x,
           w * o.w - x * o.x - y * o.y - z * o.z)
    }

    /** `operator*(const Vec3 &)`: the product with a quaternion whose scalar part is zero, written out. */
    function MulVec(p: Vec3): Quat {
      Quat(w * p.x + y * p.z - z * p.y,
           w * p.y + z * p.x - x * p.z,
           w * p.z + x * p.y - y * p.x,
           -x * p.x - y * p.y - z * p.z)
    }

    /** `operator/(float)`: every component divided by `s`, which scaling back by `s` undoes. */
    function DivScalar(s: real): (r: Quat)
      requires s != 0.0
      ensures r.x * s == x && r.y * s == y && r.z * s == z && r.w * s == w
    {
      Quat(x / s, y / s, z / s, w / s)
    }

    /** `inv()`: the conjugate over the squared length, so the squared length must not be zero. */
    function Inv(): Quat
      requires SquaredLength() != 0.0
    {
      Conj().DivScalar(SquaredLength())
    }
  }

  /** `Quat()`: the identity rotation. */
  const Identity: Quat := Quat(0.0, 0.0, 0.0, 1.0)

  /** `Quat(const Vec3 &p, float w)`. */
  function FromVector(p: Vec3, w: real): Quat {
    Quat(p.x, p.y, p.z, w)
  }

  /** `Quat()` is a two-sided identity of the Hamilton product. */
  lemma IdentityIsNeutral(q: Quat)
    ensures Identity.Mul(q) == q
    ensures q.Mul(Identity) == q
  {
  }

  /** Conjugating twice is the identity. */
  lemma ConjInvolution(q: Quat)
    ensures q.Conj().Conj() == q
  {
  }

  /** Conjugation keeps the squared length. */
  lemma ConjPreservesSquaredLength(q: Quat)
    ensures q.Conj().SquaredLength() == q.SquaredLength()
  {
  }

  /** `q * conj(q)` is the real quaternion carrying the squared length. */
  lemma MulConj(q: Quat)
    ensures q.Mul(q.Conj()) == Quat(0.0, 0.0, 0.0, q.SquaredLength())
  {
  }

  /** `q * inv(q)` is the identity whenever the inverse is defined. */
  lemma MulInv(q: Quat)
    requires q.SquaredLength() != 0.0
    ensures q.Mul(q.Inv()) == Identity
  {
    var s := q.SquaredLength();
    var c := q.Conj();
    var i := q.Inv();
    assert i == c.DivScalar(s);
    MulConj(q);
    calc {
      q.Mul(i).w * s;
    ==
      q.Mul(c).w;
    ==
      s;
    }
    calc {
      q.Mul(i).x * s;
    ==
      q.Mul(c).x;
    ==
      0.0;
    }
    calc {
      q.Mul(i).y * s;
    ==
      q.Mul(c).y;
    ==
      0.0;
    }
    calc {
      q.Mul(i).z * s;
    ==
      q.Mul(c).z;
    ==
      0.0;
    }
  }

  /** Euler's four-square identity over the components the Hamilton product produces. */
  lemma FourSquare(a: real, b: real, c: real, d: real, e: real, f: real, g: real, h: real)
    ensures (d * e + h * a + b * g - c * f) * (d * e + h * a + b * g - c * f)
          + (d * f + h * b + c * e - a * g) * (d * f + h * b + c * e - a * g)
          + (d * g + h * c + a * f - b * e) * (d * g + h * c + a * f - b * e)
          + (d * h - a * e - b * f - c * g) * (d * h - a * e - b * f - c * g)
         == (a * a + b * b + c * c + d * d) * (e * e + f * f + g * g + h * h)
  {
  }

  /** The squared length of a product, written out in the factors' components. */
  lemma ProductSquaredLength(q: Quat, o: Quat)
    ensures q.Mul(o).SquaredLength()
         == (q.w * o.x + o.w * q.x + q.y * o.z - q.z * o.y) * (q.w * o.x + o.w * q.x + q.y * o.z - q.z * o.y)
          + (q.w * o.y + o.w * q.y + q.z * o.x - q.x * o.z) * (q.w * o.y + o.w * q.y + q.z * o.x - q.x * o.z)
          + (q.w * o.z + o.w * q.z + q.x * o.y - q.y * o.x) * (q.w * o.z + o.w * q.z + q.x * o.y - q.y * o.x)
          + (q.w * o.w - q.x * o.x - q.y * o.y - q.z * o.z) * (q.w * o.w - q.x * o.x - q.y * o.y - q.z * o.z)
  {
    var p := q.Mul(o);
    SquareOfEqual(p.x, q.w * o.x + o.w * q.x + q.y * o.z - q.z * o.y);
    SquareOfEqual(p.y, q.w * o.y + o.w * q.y + q.z * o.x - q.x * o.z);
    SquareOfEqual(p.z, q.w * o.z + o.w * q.z + q.x * o.y - q.y * o.x);
    SquareOfEqual(p.w, q.w * o.w - q.x * o.x - q.y * o.y - q.z * o.z);
  }

  /** The product of two squared lengths, written out in the components. */
  lemma ProductOfSquaredLengths(q: Quat, o: Quat)
    ensures q.SquaredLength() * o.SquaredLength()
         == (q.x * q.x + q.y * q.y + q.z * q.z + q.w * q.w) * (o.x * o.x + o.y * o.y + o.z * o.z + o.w * o.w)
  {
    MulOfEqual(q.SquaredLength(), o.SquaredLength(),
               q.x * q.x + q.y * q.y + q.z * q.z + q.w * q.w, o.x * o.x + o.y * o.y + o.z * o.z + o.w * o.w);
  }

  /** The squared length is multiplicative. */
  lemma SquaredLengthMultiplicative(q: Quat, o: Quat)
    ensures q.Mul(o).SquaredLength() == q.SquaredLength() * o.SquaredLength()
  {
    ProductSquaredLength(q, o);
    FourSquare(q.x, q.y, q.z, q.w, o.x, o.y, o.z, o.w);
    ProductOfSquaredLengths(q, o);
  }

  /** The conjugate of a product is the product of the conjugates in reverse order. */
  lemma ConjOfProduct(q: Quat, o: Quat)
    ensures q.Mul(o).Conj() == o.Conj().Mul(q.Conj())
  {
    assert q.Mul(o).Conj() == Quat(-(q.w * o.x + o.w * q.x + q.y * o.z - q.z * o.y),
                                   -(q.w * o.y + o.w * q.y + q.z * o.x - q.x * o.z),
                                   -(q.w * o.z + o.w * q.z + q.x * o.y - q.y * o.x),
                                   q.w * o.w - q.x * o.x - q.y * o.y - q.z * o.z);
  }

  /** Multiplying by a vector is multiplying by the quaternion with that vector part and scalar zero. */
  lemma MulVecIsMulPure(q: Quat, p: Vec3)
    ensures q.MulVec(p) == q.Mul(FromVector(p, 0.0))
  {
  }

  /** The vector part of `Quat(p, w)` is `p`. */
  lemma FromVectorRoundTrip(p: Vec3, w: real)
    ensures FromVector(p, w).VectorPart() == p
    ensures FromVector(p, w).w == w
  {
  }
}
