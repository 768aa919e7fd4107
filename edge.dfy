/** A face edge: a value holding its two endpoints, with the squared and
    abstract (square-root) length, the unit direction, and the
    order-independent equality of the engine's `Edge` class. */
module Edges {
  import opened Vec3

  /** Construction stores both endpoints verbatim; `start` and `end` are the
      accessors. */
  datatype Edge = Edge(start: Vec3D, end: Vec3D)

  /** The end point minus the start point. */
  function Delta(e: Edge): Vec3D {
    Sub(e.end, e.start)
  }

  /** The difference is zero exactly for a degenerate edge. */
  lemma DeltaZero(e: Edge)
    ensures Delta(e) == Zero <==> e.start == e.end
  {
    if Delta(e) == Zero {
      assert e.start.x == e.end.x && e.start.y == e.end.y && e.start.z == e.end.z;
    }
  }

  /** `dx*dx + dy*dy + dz*dz`, the radicand of the edge length. */
  function LengthSquared(e: Edge): (r: real)
    ensures r >= 0.0
    ensures r > 0.0 <==> e.start != e.end
  {
    NormSquaredPositive(Delta(e));
    DeltaZero(e);
    NormSquared(Delta(e))
  }

  /** The edge length: `sqrt` stands for `std::sqrt`. */
  function Length(e: Edge, sqrt: real -> real): real {
    sqrt(LengthSquared(e))
  }

  /** Reversing an edge does not change its length. */
  lemma LengthSquaredSymmetric(a: Vec3D, b: Vec3D)
    ensures LengthSquared(Edge(a, b)) == LengthSquared(Edge(b, a))
  {
  }

  /** With a genuine square root, the length is zero exactly for a
      degenerate edge and positive otherwise. */
  lemma LengthZeroIff(e: Edge, sqrt: real -> real)
    requires IsSquareRoot(sqrt(LengthSquared(e)), LengthSquared(e))
    ensures Length(e, sqrt) >= 0.0
    ensures Length(e, sqrt) > 0.0 <==> e.start != e.end
  {
    SquareRootPositive(sqrt(LengthSquared(e)), LengthSquared(e));
  }

  /** The direction vector `(end - start) / length`, or the zero vector when
      the length is not positive. */
  function Direction(e: Edge, sqrt: real -> real): (d: Vec3D)
    ensures Length(e, sqrt) > 0.0 ==> Scale(d, Length(e, sqrt)) == Delta(e)
    ensures !(Length(e, sqrt) > 0.0) ==> d == Zero
  {
    var len := Length(e, sqrt);
    if len > 0.0 then
      DivScaleInverse(Delta(e), len);
      Div(Delta(e), len)
    else
      Zero
  }

  /** With a genuine square root the direction is zero exactly for a
      degenerate edge. */
  lemma DirectionZeroIff(e: Edge, sqrt: real -> real)
    requires IsSquareRoot(sqrt(LengthSquared(e)), LengthSquared(e))
    ensures Direction(e, sqrt) == Zero <==> e.start == e.end
  {
    LengthZeroIff(e, sqrt);
    if Length(e, sqrt) > 0.0 {
      DivZero(Delta(e), Length(e, sqrt));
    }
  }

  /** With a genuine square root, a non-degenerate edge has a unit
      direction. */
  lemma DirectionUnitLength(e: Edge, sqrt: real -> real)
    requires e.start != e.end
    requires IsSquareRoot(sqrt(LengthSquared(e)), LengthSquared(e))
    ensures NormSquared(Direction(e, sqrt)) == 1.0
  {
    DeltaZero(e);
    assert LengthSquared(e) == NormSquared(Delta(e));
    DivByMagnitude(Delta(e), Length(e, sqrt));
  }

  /** `operator==`: the six coordinates agree in the same order or in the
      reverse order. */
  predicate Equal(a: Edge, b: Edge)
    ensures Equal(a, b) <==> a == b || a == Edge(b.end, b.start)
  {
    var sameOrder :=
      a.start.x == b.start.x && a.start.y == b.start.y && a.start.z == b.start.z &&
      a.end.x == b.end.x && a.end.y == b.end.y && a.end.z == b.end.z;
    var reverseOrder :=
      a.start.x == b.end.x && a.start.y == b.end.y && a.start.z == b.end.z &&
      a.end.x == b.start.x && a.end.y == b.start.y && a.end.z == b.start.z;
    sameOrder || reverseOrder
  }

  lemma EqualReflexive(a: Edge)
    ensures Equal(a, a)
  {
  }

  lemma EqualSymmetric(a: Edge, b: Edge)
    ensures Equal(a, b) <==> Equal(b, a)
  {
  }

  /** An edge equals its reverse. */
  lemma EqualOrderIndependent(p: Vec3D, q: Vec3D)
    ensures Equal(Edge(p, q), Edge(q, p))
  {
  }

  /** Equality compares unordered endpoint pairs, so it is transitive as
      well. */
  lemma EqualTransitive(a: Edge, b: Edge, c: Edge)
    requires Equal(a, b) && Equal(b, c)
    ensures Equal(a, c)
  {
  }

  /** Equal edges have the same length. */
  lemma EqualSameLength(a: Edge, b: Edge)
    requires Equal(a, b)
    ensures LengthSquared(a) == LengthSquared(b)
  {
    if a != b {
      LengthSquaredSymmetric(b.end, b.start);
    }
  }
}
