/**
 * The three-component vector of Vec3.h, used as point, direction and colour,
 * with its arithmetic, dot and cross products, lengths, `unit`, the
 * componentwise `min`/`max`, the scalar-on-the-left product and `reflect`.
 */
module Vectors {
  import opened Numerics

  datatype Vec3 = Vec3(x: real, y: real, z: real) {

    /** The colour aliases `r()`, `g()`, `b()` name the same components. */
    function R(): real { x }
    function G(): real { y }
    function B(): real { z }

    predicate IsZero() {
      x == 0.0 && y == 0.0 && z == 0.0
    }

    function Neg(): Vec3 {
      Vec3(-x, -y, -z)
    }

    function Add(o: Vec3): Vec3 {
      Vec3(x + o.x, y + o.y, z + o.z)
    }

    function Sub(o: Vec3): Vec3 {
      Vec3(x - o.x, y - o.y, z - o.z)
    }

    /** Componentwise product, `operator*(const Vec3 &)`. */
    function Mul(o: Vec3): Vec3 {
      Vec3(x * o.x, y * o.y, z * o.z)
    }

    /** Componentwise quotient; a zero component of `o` is IEEE's business, not the model's. */
    function Div(o: Vec3): (r: Vec3)
      requires o.x != 0.0 && o.y != 0.0 && o.z != 0.0
      ensures r.Mul(o) == this
    {
      Vec3(x / o.x, y / o.y, z / o.z)
    }

    /** `v * t`. */
    function Scale(t: real): Vec3 {
      Vec3(x * t, y * t, z * t)
    }

    /** `v / t`, the inverse of scaling by a nonzero `t`. */
    function DivScalar(t: real): (r: Vec3)
      requires t != 0.0
      ensures r.Scale(t) == this
    {
      Vec3(x / t, y / t, z / t)
    }

    function Dot(o: Vec3): real {
      x * o.x + y * o.y + z * o.z
    }

    /** The cross product is orthogonal to both factors. */
    function Cross(o: Vec3): (r: Vec3)
      ensures r.Dot(this) == 0.0 && r.Dot(o) == 0.0
    {
      Vec3(y * o.z - z * o.y,
           z * o.x - x * o.z,
           x * o.y - y * o.x)
    }

    /** `squared_length()`, the vector's dot product with itself. */
    function SquaredLength(): real {
      x * x + y * y + z * z
    }

    /** `length()`: the non-negative number whose square is the squared length. */
    function Length(sqrt: real -> real): (r: real)
      requires IsSqrt(sqrt)
      ensures 0.0 <= r && r * r == SquaredLength()
    {
      sqrt(SquaredLength())
    }

    /** `unit()`: divides by the length, so the caller must supply a nonzero vector. */
    function Unit(sqrt: real -> real): Vec3
      requires IsSqrt(sqrt)
      requires !IsZero()
    {
      LengthPositive(this, sqrt);
      DivScalar(Length(sqrt))
    }

    /** Componentwise `fmin`. */
    function Min(o: Vec3): (r: Vec3)
      ensures r.x <= x && r.x <= o.x && (r.x == x || r.x == o.x)
      ensures r.y <= y && r.y <= o.y && (r.y == y || r.y == o.y)
      ensures r.z <= z && r.z <= o.z && (r.z == z || r.z == o.z)
    {
      Vec3(FMin(x, o.x), FMin(y, o.y), FMin(z, o.z))
    }

    /** Componentwise `fmax`. */
    function Max(o: Vec3): (r: Vec3)
      ensures x <= r.x && o.x <= r.x && (r.x == x || r.x == o.x)
      ensures y <= r.y && o.y <= r.y && (r.y == y || r.y == o.y)
      ensures z <= r.z && o.z <= r.z && (r.z == z || r.z == o.z)
    {
      Vec3(FMax(x, o.x), FMax(y, o.y), FMax(z, o.z))
    }
  }

  const Ones: Vec3 := Vec3(1.0, 1.0, 1.0)

  /** The free `operator*(float t, const Vec3 &v)`, defined as `v * t`. */
  function ScaleLeft(t: real, v: Vec3): Vec3 {
    v.Scale(t)
  }

  /** `reflect(v, n) = v - 2 (v . n) n`; meant for unit `v` and `n`. */
  function Reflect(v: Vec3, n: Vec3): Vec3 {
    v.Sub(ScaleLeft(2.0 * v.Dot(n), n))
  }

  // Nonlinear steps are spelled out with `calc`: the solver does not reliably
  // carry a fact about a product over an equation that names the product.

  lemma Square(a: real)
    ensures 0.0 <= a * a
    ensures a != 0.0 ==> 0.0 < a * a
  {
    if 0.0 < a {
      MulPositive(a, a);
    } else if a < 0.0 {
      MulPositive(-a, -a);
    }
  }

  lemma SquaresNonNegative(a: real, b: real, c: real)
    ensures 0.0 <= a * a + b * b + c * c
    ensures 0.0 < a * a + b * b + c * c <==> !(a == 0.0 && b == 0.0 && c == 0.0)
  {
    Square(a);
    Square(b);
    Square(c);
    if a == 0.0 && b == 0.0 && c == 0.0 {
      assert a * a + b * b + c * c == 0.0 * 0.0 + 0.0 * 0.0 + 0.0 * 0.0;
    } else {
      assert 0.0 < a * a + b * b + c * c;
    }
  }

  /** `squared_length()` is never negative, and is positive exactly off the zero vector. */
  lemma SquaredLengthPositive(v: Vec3)
    ensures 0.0 <= v.SquaredLength()
    ensures 0.0 < v.SquaredLength() <==> !v.IsZero()
  {
    SquaresNonNegative(v.x, v.y, v.z);
    if v.IsZero() {
      calc {
        v.SquaredLength();
      ==
        v.x * v.x + v.y * v.y + v.z * v.z;
      ==
        0.0;
      }
    } else {
      calc {
        v.SquaredLength();
      ==
        v.x * v.x + v.y * v.y + v.z * v.z;
      >
        0.0;
      }
    }
  }

  lemma RootPositive(r: real, s: real)
    requires 0.0 <= r && r * r == s
    ensures 0.0 < r <==> 0.0 < s
  {
    if 0.0 < r {
      MulPositive(r, r);
      calc {
        s;
      ==
        r * r;
      >
        0.0;
      }
    } else {
      calc {
        s;
      ==
        r * r;
      ==
        0.0 * 0.0;
      ==
        0.0;
      }
    }
  }

  lemma UnitFactor(a: real, b: real)
    requires 0.0 < b && a * b == b
    ensures a == 1.0
  {
  }

  /** For a nonzero vector, `length()` is positive. */
  lemma LengthPositive(v: Vec3, sqrt: real -> real)
    requires IsSqrt(sqrt)
    requires !v.IsZero()
    ensures 0.0 < v.Length(sqrt)
  {
    SquaredLengthPositive(v);
    RootPositive(v.Length(sqrt), v.SquaredLength());
  }

  /**
   * `unit()` of a nonzero vector has squared length one and, scaled back by
   * the length, is the original vector.
   */
  lemma UnitIsUnit(v: Vec3, sqrt: real -> real)
    requires IsSqrt(sqrt)
    requires !v.IsZero()
    ensures v.Unit(sqrt).SquaredLength() == 1.0
    ensures v.Unit(sqrt).Scale(v.Length(sqrt)) == v
  {
    var len := v.Length(sqrt);
    var u := v.Unit(sqrt);
    LengthPositive(v, sqrt);
    assert u == v.DivScalar(len);
    ScaledSquaredLength(u, len);
    MulPositive(len, len);
    calc {
      u.SquaredLength() * (len * len);
    ==
      u.Scale(len).SquaredLength();
    ==
      v.SquaredLength();
    ==
      len * len;
    }
    UnitFactor(u.SquaredLength(), len * len);
  }

  lemma ScaledSquaredLength(v: Vec3, t: real)
    ensures v.Scale(t).SquaredLength() == v.SquaredLength() * (t * t)
  {
  }

  // Algebra of the dot product.

  /** `dot` is symmetric. */
  lemma DotSymmetric(a: Vec3, b: Vec3)
    ensures a.Dot(b) == b.Dot(a)
  {
  }

  /** `squared_length()` is the vector's dot product with itself. */
  lemma SquaredLengthIsSelfDot(v: Vec3)
    ensures v.SquaredLength() == v.Dot(v)
  {
  }

  lemma DotSub(a: Vec3, b: Vec3, c: Vec3)
    ensures a.Sub(b).Dot(c) == a.Dot(c) - b.Dot(c)
  {
  }

  lemma DotScale(a: Vec3, t: real, c: Vec3)
    ensures a.Scale(t).Dot(c) == t * a.Dot(c)
  {
  }

  lemma SubScaledSquaredLength(a: Vec3, n: Vec3, k: real)
    ensures a.Sub(n.Scale(k)).SquaredLength()
         == a.SquaredLength() - 2.0 * k * a.Dot(n) + k * k * n.SquaredLength()
  {
  }

  /** Lagrange's identity: `|a|^2 |b|^2 - (a . b)^2 = |a x b|^2`. */
  lemma Lagrange(a: Vec3, b: Vec3)
    ensures a.SquaredLength() * b.SquaredLength() - a.Dot(b) * a.Dot(b) == a.Cross(b).SquaredLength()
  {
  }

  /** Cauchy-Schwarz for unit vectors: their dot product squared is at most one. */
  lemma UnitDotBound(a: Vec3, b: Vec3)
    requires a.SquaredLength() == 1.0 && b.SquaredLength() == 1.0
    ensures a.Dot(b) * a.Dot(b) <= 1.0
  {
    Lagrange(a, b);
    SquaredLengthPositive(a.Cross(b));
    calc {
      a.Dot(b) * a.Dot(b);
    ==
      a.SquaredLength() * b.SquaredLength() - a.Cross(b).SquaredLength();
    ==
      1.0 - a.Cross(b).SquaredLength();
    <=
      1.0;
    }
  }

  /** `t * v == v * t`, and both multiply every component by `t`. */
  lemma ScaleLeftCommutes(t: real, v: Vec3)
    ensures ScaleLeft(t, v) == v.Scale(t)
    ensures ScaleLeft(t, v) == Vec3(t * v.x, t * v.y, t * v.z)
  {
  }

  /** `min(a, b) <= a, b <= max(a, b)` componentwise. */
  lemma MinBelowMax(a: Vec3, b: Vec3)
    ensures a.Min(b).x <= a.x <= a.Max(b).x && a.Min(b).x <= b.x <= a.Max(b).x
    ensures a.Min(b).y <= a.y <= a.Max(b).y && a.Min(b).y <= b.y <= a.Max(b).y
    ensures a.Min(b).z <= a.z <= a.Max(b).z && a.Min(b).z <= b.z <= a.Max(b).z
  {
  }

  // Properties of reflect.

  /** The normal component of a reflection is the negated normal component of the input. */
  lemma ReflectNormalComponent(v: Vec3, n: Vec3)
    requires n.SquaredLength() == 1.0
    ensures Reflect(v, n).Dot(n) == -v.Dot(n)
  {
    var k := 2.0 * v.Dot(n);
    DotSub(v, n.Scale(k), n);
    DotScale(n, k, n);
  }

  /** For a unit normal, reflection keeps the squared length. */
  lemma ReflectPreservesLength(v: Vec3, n: Vec3)
    requires n.SquaredLength() == 1.0
    ensures Reflect(v, n).SquaredLength() == v.SquaredLength()
  {
    var a := v.Dot(n);
    var w := n.Scale(2.0 * a);
    DotSub(v, w, v);
    DotSub(v, w, w);
    DotScale(n, 2.0 * a, v);
    DotScale(n, 2.0 * a, w);
    DotScale(n, 2.0 * a, n);
    assert w.Dot(w) == 4.0 * a * a;
  }

  /** For a unit normal, reflecting twice gives back the input. */
  lemma {:induction false} ReflectInvolution(v: Vec3, n: Vec3)
    requires n.SquaredLength() == 1.0
    ensures Reflect(Reflect(v, n), n) == v
  {
    ReflectNormalComponent(v, n);
  }

  /** Reflection does not depend on which way the normal points. */
  lemma ReflectFlippedNormal(v: Vec3, n: Vec3)
    ensures Reflect(v, n.Neg()) == Reflect(v, n)
  {
  }

  /** Reflecting in the ground's upward normal flips the vertical component and keeps the rest. */
  lemma ReflectInGround(v: Vec3)
    ensures Reflect(v, Vec3(0.0, 0.0, 1.0)) == Vec3(v.x, v.y, -v.z)
  {
    assert v.Dot(Vec3(0.0, 0.0, 1.0)) == v.z;
  }
}
