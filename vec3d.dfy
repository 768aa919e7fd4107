/** Three-component vectors over exact reals, standing in for the `Vec3D`
    value type the face engine is built on: component-wise `+` and `-`,
    multiplication and division by a scalar, `dot` and the right-handed
    `cross` product. */
module Vec3 {

  datatype Vec3D = Vec3D(x: real, y: real, z: real)

  const Zero: Vec3D := Vec3D(0.0, 0.0, 0.0)

  function Add(a: Vec3D, b: Vec3D): Vec3D {
    Vec3D(a.x + b.x, a.y + b.y, a.z + b.z)
  }

  function Sub(a: Vec3D, b: Vec3D): Vec3D {
    Vec3D(a.x - b.x, a.y - b.y, a.z - b.z)
  }

  function Scale(a: Vec3D, k: real): Vec3D {
    Vec3D(a.x * k, a.y * k, a.z * k)
  }

  /** Division by a scalar; dividing by zero is the caller's error. */
  function Div(a: Vec3D, k: real): Vec3D
    requires k != 0.0
  {
    Vec3D(a.x / k, a.y / k, a.z / k)
  }

  function Dot(a: Vec3D, b: Vec3D): real {
    a.x * b.x + a.y * b.y + a.z * b.z
  }

  function Cross(a: Vec3D, b: Vec3D): Vec3D {
    Vec3D(a.y * b.z - a.z * b.y, a.z * b.x - a.x * b.z, a.x * b.y - a.y * b.x)
  }

  /** `dx*dx + dy*dy + dz*dz`, the quantity the engine passes to `std::sqrt`. */
  function NormSquared(a: Vec3D): real {
    a.x * a.x + a.y * a.y + a.z * a.z
  }

  /** `r` is the non-negative square root of `x`. The engine's `std::sqrt`
      is modelled by a function parameter; the lemmas that need a genuine
      square root require this of the one value they use. */
  ghost predicate IsSquareRoot(r: real, x: real) {
    0.0 <= r && r * r == x
  }

  // The products below are passed in under a name (`t == a * b`): facts
  // stated about the name, rather than about the product itself, are the
  // ones the linear steps of the callers can use.

  lemma MulPositive(a: real, b: real, t: real)
    requires t == a * b
    requires a > 0.0 && b > 0.0
    ensures t > 0.0
  {
  }

  lemma SquareNonNegative(r: real, t: real)
    requires t == r * r
    ensures t >= 0.0
  {
    if r > 0.0 {
      MulPositive(r, r, t);
    } else if r < 0.0 {
      MulPositive(-r, -r, t);
    }
  }

  lemma SquarePositive(r: real, t: real)
    requires t == r * r
    requires r != 0.0
    ensures t > 0.0
  {
    if r > 0.0 {
      MulPositive(r, r, t);
    } else {
      MulPositive(-r, -r, t);
    }
  }

  /** The square of a quotient is the quotient of the squares. */
  lemma DivSquare(a: real, m: real, mm: real)
    requires m > 0.0 && mm == m * m
    ensures mm > 0.0
    ensures (a / m) * (a / m) == (a * a) / mm
  {
    MulPositive(m, m, mm);
    var d := a / m;
    assert d * m == a;
    assert (d * d) * mm == a * a;
  }

  lemma DivSelf(x: real)
    requires x > 0.0
    ensures x / x == 1.0
  {
    var q := x / x;
    assert q * x == x;
    if q > 1.0 {
      MulPositive(q - 1.0, x, q * x - x);
    } else if q < 1.0 {
      MulPositive(1.0 - q, x, x - q * x);
    }
  }

  lemma SumOverSame(p: real, q: real, r: real, mm: real)
    requires mm != 0.0
    ensures p / mm + q / mm + r / mm == (p + q + r) / mm
  {
  }

  lemma NormSquaredNonNegative(a: Vec3D)
    ensures NormSquared(a) >= 0.0
  {
    SquareNonNegative(a.x, a.x * a.x);
    SquareNonNegative(a.y, a.y * a.y);
    SquareNonNegative(a.z, a.z * a.z);
  }

  /** Only the zero vector has zero length; every other one has positive
      squared length. */
  lemma NormSquaredPositive(a: Vec3D)
    ensures NormSquared(a) >= 0.0
    ensures NormSquared(a) > 0.0 <==> a != Zero
    ensures NormSquared(a) == 0.0 <==> a == Zero
  {
    var xx, yy, zz := a.x * a.x, a.y * a.y, a.z * a.z;
    SquareNonNegative(a.x, xx);
    SquareNonNegative(a.y, yy);
    SquareNonNegative(a.z, zz);
    assert NormSquared(a) == xx + yy + zz;
    if a != Zero {
      if a.x != 0.0 {
        SquarePositive(a.x, xx);
      } else if a.y != 0.0 {
        SquarePositive(a.y, yy);
      } else {
        SquarePositive(a.z, zz);
      }
    }
  }

  /** A genuine square root of zero is zero, and of a positive number is
      positive. */
  lemma SquareRootPositive(r: real, x: real)
    requires IsSquareRoot(r, x)
    ensures r > 0.0 <==> x > 0.0
  {
    if r > 0.0 {
      MulPositive(r, r, x);
    }
  }

  /** The cross product is orthogonal to both of its factors. */
  lemma CrossOrthogonal(a: Vec3D, b: Vec3D)
    ensures Dot(Cross(a, b), a) == 0.0
    ensures Dot(Cross(a, b), b) == 0.0
  {
  }

  /** Dividing by k and scaling back by k is the identity. */
  lemma DivScaleInverse(a: Vec3D, k: real)
    requires k != 0.0
    ensures Scale(Div(a, k), k) == a
  {
  }

  /** Dividing by a non-zero scalar keeps a vector zero exactly when it was. */
  lemma DivZero(a: Vec3D, k: real)
    requires k != 0.0
    ensures Div(a, k) == Zero <==> a == Zero
  {
    DivScaleInverse(a, k);
  }

  /** Dividing a non-zero vector by its genuine magnitude gives a unit
      vector. */
  lemma DivByMagnitude(a: Vec3D, m: real)
    requires a != Zero
    requires IsSquareRoot(m, NormSquared(a))
    ensures m > 0.0
    ensures NormSquared(Div(a, m)) == 1.0
  {
    var ns := NormSquared(a);
    NormSquaredPositive(a);
    SquareRootPositive(m, ns);
    DivSquare(a.x, m, ns);
    DivSquare(a.y, m, ns);
    DivSquare(a.z, m, ns);
    SumOverSame(a.x * a.x, a.y * a.y, a.z * a.z, ns);
    var u := Div(a, m);
    assert NormSquared(u) == (a.x / m) * (a.x / m) + (a.y / m) * (a.y / m) + (a.z / m) * (a.z / m);
    assert NormSquared(u) == ns / ns;
    DivSelf(ns);
  }

  /** A dot product with a quotient is the quotient of the dot product. */
  lemma DotDiv(a: Vec3D, b: Vec3D, k: real)
    requires k != 0.0
    ensures Dot(Div(a, k), b) == Dot(a, b) / k
  {
  }
}
