/** The face object: its corners, the edge ring and the normal, which
    `CreateFace` sets up, and the point generators, which read them. */
module Faces {
  import opened Vec3
  import opened Edges
  import opened Points
  import opened FaceGeometry
  import opened Sampling

  /** How `GeneratePointGrid` samples the face. */
  datatype PointGenerationMethod = EdgeOnly | EdgeAndInterior | InteriorOnly | UniformGrid

  /** `pts` carries the positions `ps` in order, each as an interior point
      with no edge. */
  ghost predicate InteriorPointsAt(pts: seq<CzmPoint>, ps: seq<Vec3D>)
    reads set p | p in pts
  {
    |pts| == |ps| &&
    forall k :: 0 <= k < |pts| ==>
      pts[k].position == ps[k] && pts[k].pointType == InteriorPoint && pts[k].edge == None
  }

  /** `pts` carries the positions `ps` in order, each as an edge point
      referring to edge `k / n`, `n` being the number of points per edge. */
  ghost predicate EdgePointsAt(pts: seq<CzmPoint>, ps: seq<Vec3D>, n: int)
    reads set p | p in pts
  {
    |pts| == |ps| &&
    forall k :: 0 <= k < |pts| ==>
      n > 0 && pts[k].position == ps[k] && pts[k].pointType == EdgePoint && pts[k].edge == Some(k / n)
  }

  /** Appending a point tagged as an edge point of edge `|pts| / n`. */
  lemma EdgePointsAtSnoc(pts: seq<CzmPoint>, ps: seq<Vec3D>, n: int, point: CzmPoint)
    requires EdgePointsAt(pts, ps, n) && n > 0
    requires point.pointType == EdgePoint && point.edge == Some(|pts| / n)
    ensures EdgePointsAt(pts + [point], ps + [point.position], n)
  {
  }

  /** Before sample `i` of edge `k` come `k * n + i` samples, so the new
      sample falls in block `k`. */
  lemma SamplesBeforeBlock(es: seq<Edge>, k: int, n: int, i: int)
    requires 0 <= k < |es| && 0 <= i < n && n != 1
    ensures |EdgeSamples(es[..k], n) + EdgeRun(es[k], n, i)| / n == k
  {
    EdgeSamplesLength(es[..k], n);
    var m := |EdgeSamples(es[..k], n) + EdgeRun(es[k], n, i)|;
    assert m == k * n + i;
    DivModOfIndex(k, n, i);
  }

  /** Appending sample `i` of edge `k` to the samples before it. */
  lemma EdgePointsStep(pts: seq<CzmPoint>, es: seq<Edge>, k: int, n: int, i: int, point: CzmPoint)
    requires 0 <= k < |es| && 0 <= i < n && n != 1
    requires EdgePointsAt(pts, EdgeSamples(es[..k], n) + EdgeRun(es[k], n, i), n)
    requires point.position == Lerp(es[k].start, es[k].end, Param(i, n))
    requires point.pointType == EdgePoint && point.edge == Some(k)
    ensures EdgePointsAt(pts + [point], EdgeSamples(es[..k], n) + EdgeRun(es[k], n, i + 1), n)
  {
    var before := EdgeSamples(es[..k], n) + EdgeRun(es[k], n, i);
    SamplesBeforeBlock(es, k, n, i);
    assert |pts| / n == k;
    EdgePointsAtSnoc(pts, before, n, point);
    assert EdgeRun(es[k], n, i + 1) == EdgeRun(es[k], n, i) + [point.position];
    assert before + [point.position] == EdgeSamples(es[..k], n) + EdgeRun(es[k], n, i + 1);
  }

  /** Once all samples of edge `k` are in, they are the samples of the
      first `k + 1` edges. */
  lemma EdgeSamplesStep(es: seq<Edge>, k: int, n: int, i: int)
    requires 0 <= k < |es| && n != 1 && i >= n && (i <= n || i == 0)
    ensures EdgeSamples(es[..k], n) + EdgeRun(es[k], n, i) == EdgeSamples(es[..k + 1], n)
  {
    assert es[..k + 1][..k] == es[..k];
  }

  /** Appending a point tagged as an interior point. */
  lemma InteriorPointsAtSnoc(pts: seq<CzmPoint>, ps: seq<Vec3D>, point: CzmPoint)
    requires InteriorPointsAt(pts, ps)
    requires point.pointType == InteriorPoint && point.edge == None
    ensures InteriorPointsAt(pts + [point], ps + [point.position])
  {
  }

  /** A candidate that passes the test is appended as an interior point. */
  lemma KeepStep(pts: seq<CzmPoint>, vs: seq<Vec3D>, es: seq<Edge>, n: Vec3D, seen: seq<Vec3D>, point: CzmPoint)
    requires InteriorPointsAt(pts, KeepInside(vs, es, n, seen))
    requires Inside(vs, es, n, point.position)
    requires point.pointType == InteriorPoint && point.edge == None
    ensures InteriorPointsAt(pts + [point], KeepInside(vs, es, n, seen + [point.position]))
  {
    KeepInsideSnoc(vs, es, n, seen, point.position);
    InteriorPointsAtSnoc(pts, KeepInside(vs, es, n, seen), point);
  }

  /** A candidate that fails the test is dropped. */
  lemma SkipStep(pts: seq<CzmPoint>, vs: seq<Vec3D>, es: seq<Edge>, n: Vec3D, seen: seq<Vec3D>, q: Vec3D)
    requires InteriorPointsAt(pts, KeepInside(vs, es, n, seen))
    requires !Inside(vs, es, n, q)
    ensures InteriorPointsAt(pts, KeepInside(vs, es, n, seen + [q]))
  {
    KeepInsideSnoc(vs, es, n, seen, q);
  }

  /** A finished column extends the grid by one column. */
  lemma GridStep(ox: real, sx: real, iLo: int, i: int, oy: real, sy: real, jLo: int, j: int, jHi: int, z: real)
    requires iLo <= i && jLo <= j && (j == jHi || (j == jLo && jHi < jLo))
    ensures Grid(ox, sx, iLo, i, oy, sy, jLo, jHi, z) + Column(ox, sx, i, oy, sy, jLo, j, z) ==
      Grid(ox, sx, iLo, i + 1, oy, sy, jLo, jHi, z)
  {
    if j != jHi {
      assert Column(ox, sx, i, oy, sy, jLo, j, z) == [] == Column(ox, sx, i, oy, sy, jLo, jHi, z);
    }
  }

  /** There are `n` edge points per edge. */
  lemma EdgePointCount(pts: seq<CzmPoint>, es: seq<Edge>, n: int)
    requires n >= 2 && EdgePointsAt(pts, EdgeSamples(es, n), n)
    ensures |pts| == |es| * n
  {
    EdgeSamplesLength(es, n);
  }

  /** Edge point `j` is sample `j % n` of edge `j / n`: it lies at parameter
      `(j % n) / (n - 1)` along that edge and refers to it. */
  lemma EdgePointAt(pts: seq<CzmPoint>, es: seq<Edge>, n: int, j: int)
    requires n >= 2 && EdgePointsAt(pts, EdgeSamples(es, n), n)
    requires 0 <= j < |pts|
    ensures 0 <= j / n < |es|
    ensures pts[j].position == Lerp(es[j / n].start, es[j / n].end, Param(j % n, n))
    ensures pts[j].pointType == EdgePoint && pts[j].edge == Some(j / n)
  {
    EdgeSamplesLength(es, n);
    IndexSplits(j, n, |es|);
    EdgeSampleAt(es, n, j / n, j % n);
  }

  /** Every point the filtering generators return passes the point-in-face
      test and is an interior point with no edge. */
  lemma InteriorPointsInside(pts: seq<CzmPoint>, vs: seq<Vec3D>, es: seq<Edge>, n: Vec3D, ps: seq<Vec3D>)
    requires InteriorPointsAt(pts, KeepInside(vs, es, n, ps))
    ensures forall k :: 0 <= k < |pts| ==>
      Inside(vs, es, n, pts[k].position) && pts[k].position in ps &&
      pts[k].pointType == InteriorPoint && pts[k].edge == None
  {
    KeepInsideSound(vs, es, n, ps);
    forall k | 0 <= k < |pts|
      ensures Inside(vs, es, n, pts[k].position) && pts[k].position in ps
    {
      assert pts[k].position == KeepInside(vs, es, n, ps)[k];
    }
  }

  /** The positions of interior points laid out along `ps` are `ps`. */
  lemma PositionsOfInteriorPoints(pts: seq<CzmPoint>, ps: seq<Vec3D>)
    requires InteriorPointsAt(pts, ps)
    ensures Positions(pts) == ps
  {
  }

  /** The equal-area points: `min(m, |cs|)` of them, at accepted candidates,
      no candidate used more often than it occurs. */
  lemma SelectedPoints(pts: seq<CzmPoint>, chosen: seq<Vec3D>, vs: seq<Vec3D>, es: seq<Edge>, n: Vec3D, ps: seq<Vec3D>, m: int)
    requires m > 0 && Selection(chosen, KeepInside(vs, es, n, ps), m) && InteriorPointsAt(pts, chosen)
    ensures |pts| == if |KeepInside(vs, es, n, ps)| <= m then |KeepInside(vs, es, n, ps)| else m
    ensures multiset(Positions(pts)) <= multiset(KeepInside(vs, es, n, ps))
    ensures forall k :: 0 <= k < |pts| ==> Inside(vs, es, n, pts[k].position) && pts[k].pointType == InteriorPoint
  {
    SelectionDrawn(chosen, KeepInside(vs, es, n, ps), m);
    SelectionInside(chosen, vs, es, n, ps, m);
    PositionsOfInteriorPoints(pts, chosen);
  }

  /** With an infinite or NaN spacing only the corner is visited. */
  lemma CornerOnly(x: real, y: real, z: real)
    ensures Grid(x, 0.0, 0, 1, y, 0.0, 0, 1, z) == [Vec3D(x, y, z)]
  {
  }

  class CzmFace {
    var vertices: seq<Vec3D>
    var edges: seq<Edge>
    var normal: Vec3D

    /** A face is empty or a triangle or a quadrilateral, and its edges form
        the ring of its vertices. */
    ghost predicate Valid()
      reads this
    {
      (|vertices| == 0 || |vertices| == 3 || |vertices| == 4) && EdgeRing(vertices, edges)
    }

    /** A new face has no vertices, no edges and the zero normal (taking
        `Vec3D`'s default constructor to give the zero vector). */
    constructor()
      ensures vertices == [] && edges == [] && normal == Zero
      ensures Valid()
    {
      vertices := [];
      edges := [];
      normal := Zero;
    }

    /** Accepts three or four corners, and nothing else. A quadrilateral's
        corners are reordered by their angle about the mean of the corners
        as given; then the edges and the normal are derived. */
    method CreateFace(vs: seq<Vec3D>, atan2: (real, real) -> real, sqrt: real -> real) returns (ok: bool)
      modifies this
      ensures ok <==> |vs| == 3 || |vs| == 4
      ensures !ok ==> vertices == old(vertices) && edges == old(edges) && normal == old(normal)
      ensures ok && |vs| == 3 ==> vertices == vs
      ensures ok && |vs| == 4 ==>
        |vertices| == 4 && multiset(vertices) == multiset(vs) && SortedByKey(vertices, Center(vs), atan2)
      ensures ok ==> EdgeRing(vertices, edges) && normal == FaceNormal(vertices, sqrt)
      ensures ok ==> Valid()
    {
      if |vs| != 3 && |vs| != 4 {
        return false;
      }
      vertices := vs;
      if |vertices| == 4 {
        SortQuadVertices(atan2);
      }
      CreateEdges();
      CalculateNormal(sqrt);
      return true;
    }

    /** Rebuilds the edge ring from the vertices. */
    method CreateEdges()
      modifies this
      ensures EdgeRing(vertices, edges)
      ensures vertices == old(vertices) && normal == old(normal)
    {
      edges := [];
      var i := 0;
      while i < |vertices|
        invariant 0 <= i <= |vertices|
        invariant vertices == old(vertices) && normal == old(normal)
        invariant |edges| == i
        invariant forall k :: 0 <= k < i ==> edges[k] == Edge(vertices[k], vertices[(k + 1) % |vertices|])
      {
        var next := (i + 1) % |vertices|;
        edges := edges + [Edge(vertices[i], vertices[next])];
        i := i + 1;
      }
    }

    /** Orders a quadrilateral's corners by their angle key about their
        mean; any other face is left alone. */
    method SortQuadVertices(atan2: (real, real) -> real)
      modifies this
      ensures |old(vertices)| != 4 ==> vertices == old(vertices)
      ensures |old(vertices)| == 4 ==>
        |vertices| == 4 && multiset(vertices) == multiset(old(vertices)) &&
        SortedByKey(vertices, Center(old(vertices)), atan2)
      ensures edges == old(edges) && normal == old(normal)
    {
      if |vertices| != 4 {
        return;
      }
      var center := Center(vertices);
      var sorted := SortByKey(vertices, center, atan2);
      vertices := sorted;
    }

    /** Recomputes the normal from the first three corners. */
    method CalculateNormal(sqrt: real -> real)
      modifies this
      ensures normal == FaceNormal(vertices, sqrt)
      ensures vertices == old(vertices) && edges == old(edges)
    {
      if |vertices| < 3 {
        normal := Zero;
        return;
      }
      var v1 := Sub(vertices[1], vertices[0]);
      var v2 := Sub(vertices[2], vertices[0]);
      normal := Cross(v1, v2);
      var magnitude := sqrt(NormSquared(normal));
      if magnitude > 0.0 {
        normal := Div(normal, magnitude);
      }
    }

    /** The smallest box holding every vertex. */
    method BoundingBox() returns (b: Box)
      requires |vertices| > 0
      ensures b == Bounds(vertices)
    {
      b := Box(vertices[0].x, vertices[0].x, vertices[0].y, vertices[0].y, vertices[0].z, vertices[0].z);
      var k := 0;
      while k < |vertices|
        invariant 0 <= k <= |vertices|
        invariant b == Bounds(vertices[..if k == 0 then 1 else k])
      {
        var v := vertices[k];
        if k > 0 {
          assert vertices[..k + 1][..k] == vertices[..k];
        } else {
          ExtendContained(b, v);
        }
        b := Box(Min(b.minX, v.x), Max(b.maxX, v.x), Min(b.minY, v.y), Max(b.maxY, v.y),
                 Min(b.minZ, v.z), Max(b.maxZ, v.z));
        k := k + 1;
      }
      assert vertices[..|vertices|] == vertices;
    }

    /** The even-odd test: counts the edges the ray from the projected point
        towards +x crosses. */
    method IsPointInside(p: Vec3D) returns (inside: bool)
      ensures inside == Inside(vertices, edges, normal, p)
    {
      if |vertices| < 3 {
        return false;
      }
      var toPoint := Sub(p, vertices[0]);
      var dot := Dot(toPoint, normal);
      var projected := MoveAlong(p, normal, dot);
      var intersections := 0;
      var k := 0;
      while k < |edges|
        invariant 0 <= k <= |edges|
        invariant intersections == Crossings(edges[..k], projected)
      {
        var edgeStart := edges[k].start;
        var edgeEnd := edges[k].end;
        assert edges[..k + 1][..k] == edges[..k];
        assert Crossings(edges[..k + 1], projected) ==
          Crossings(edges[..k], projected) + if Crosses(edges[k], projected) then 1 else 0;
        if (edgeStart.y > projected.y) != (edgeEnd.y > projected.y) {
          var x := CrossingX(edges[k], projected.y);
          if projected.x < x {
            intersections := intersections + 1;
          }
        }
        k := k + 1;
      }
      assert edges[..|edges|] == edges;
      return intersections % 2 == 1;
    }

    /** `generatePointGrid`: one generator per method, and for
        `EdgeAndInterior`, the method used when none is given, the edge
        points followed by the interior points.
        `nx` and `ny` are the interior grid's columns and rows, which the
        engine derives from `n` and the face's area. */
    method GeneratePointGrid(n: int, nx: int, ny: int, sqrt: real -> real,
                             how: PointGenerationMethod := EdgeAndInterior)
      returns (pts: seq<CzmPoint>)
      requires how == EdgeOnly ==> n != 1
      requires how == InteriorOnly ==> |vertices| > 0
      requires how == UniformGrid ==>
        |vertices| > 0 && |edges| > 0 && (n == 1 || (n >= 2 && Length(edges[0], sqrt) > 0.0))
      requires how == EdgeAndInterior ==> n != 1 && |vertices| > 0
      ensures how == EdgeOnly ==> EdgePointsAt(pts, EdgeSamples(edges, n), n)
      ensures how == InteriorOnly ==>
        InteriorPointsAt(pts, KeepInside(vertices, edges, normal, InteriorGrid(Bounds(vertices), nx, ny)))
      ensures how == UniformGrid ==>
        InteriorPointsAt(pts, KeepInside(vertices, edges, normal,
          UniformSpacedGrid(Bounds(vertices), Length(edges[0], sqrt), n)))
      ensures how == EdgeAndInterior ==>
        |EdgeSamples(edges, n)| <= |pts| &&
        EdgePointsAt(pts[..|EdgeSamples(edges, n)|], EdgeSamples(edges, n), n) &&
        InteriorPointsAt(pts[|EdgeSamples(edges, n)|..],
          KeepInside(vertices, edges, normal, InteriorGrid(Bounds(vertices), nx, ny)))
      ensures forall k :: 0 <= k < |pts| ==> fresh(pts[k])
      ensures Distinct(pts)
    {
      match how
      case EdgeOnly =>
        pts := GenerateEdgePoints(n);
      case InteriorOnly =>
        pts := GenerateInteriorGridPoints(nx, ny);
      case UniformGrid =>
        pts := GenerateUniformGridPoints(n, sqrt);
      case EdgeAndInterior =>
        var edgePoints := GenerateEdgePoints(n);
        var interiorPoints := GenerateInteriorGridPoints(nx, ny);
        pts := edgePoints + interiorPoints;
        assert forall i, j :: 0 <= i < |edgePoints| && 0 <= j < |interiorPoints| ==>
          edgePoints[i] != interiorPoints[j];
        assert pts[..|edgePoints|] == edgePoints;
        assert pts[|edgePoints|..] == interiorPoints;
    }

    /** `n` points along every edge, from its start to its end, each tagged
        as an edge point of that edge. */
    method GenerateEdgePoints(n: int) returns (pts: seq<CzmPoint>)
      requires n != 1
      ensures EdgePointsAt(pts, EdgeSamples(edges, n), n)
      ensures forall k :: 0 <= k < |pts| ==> fresh(pts[k])
      ensures Distinct(pts)
    {
      pts := [];
      var k := 0;
      while k < |edges|
        invariant 0 <= k <= |edges|
        invariant EdgePointsAt(pts, EdgeSamples(edges[..k], n), n)
        invariant forall m :: 0 <= m < |pts| ==> fresh(pts[m])
        invariant Distinct(pts)
      {
        pts := EdgeRunPoints(pts, k, n);
        k := k + 1;
      }
      assert edges[..|edges|] == edges;
    }

    /** The inner loop of the edge generator: the `n` points of edge `k`,
        after the points of the edges before it. */
    method EdgeRunPoints(pts: seq<CzmPoint>, k: int, n: int) returns (r: seq<CzmPoint>)
      requires 0 <= k < |edges| && n != 1
      requires EdgePointsAt(pts, EdgeSamples(edges[..k], n), n)
      ensures EdgePointsAt(r, EdgeSamples(edges[..k + 1], n), n)
      ensures |pts| <= |r| && r[..|pts|] == pts
      ensures forall m :: |pts| <= m < |r| ==> fresh(r[m])
      ensures Distinct(pts) ==> Distinct(r)
    {
      ghost var es := edges;
      var start := edges[k].start;
      var end := edges[k].end;
      r := pts;
      var i := 0;
      assert EdgeSamples(es[..k], n) + EdgeRun(es[k], n, 0) == EdgeSamples(es[..k], n);
      while i < n
        invariant 0 <= i && (i <= n || i == 0)
        invariant EdgePointsAt(r, EdgeSamples(es[..k], n) + EdgeRun(es[k], n, i), n)
        invariant |pts| <= |r| && r[..|pts|] == pts
        invariant forall m :: |pts| <= m < |r| ==> fresh(r[m])
        invariant Distinct(pts) ==> Distinct(r)
      {
        var t := Param(i, n);
        var position := Lerp(start, end, t);
        var point := NewEdgePoint(position, k);
        EdgePointsStep(r, es, k, n, i, point);
        DistinctSnoc(r, point);
        r := r + [point];
        i := i + 1;
      }
      EdgeSamplesStep(es, k, n, i);
    }

    /** The candidate step shared by the grid generators: `point` becomes
        an interior point of the result when the even-odd test accepts it. */
    method AddIfInside(pts: seq<CzmPoint>, point: Vec3D, ghost seen: seq<Vec3D>) returns (r: seq<CzmPoint>)
      requires InteriorPointsAt(pts, KeepInside(vertices, edges, normal, seen))
      ensures InteriorPointsAt(r, KeepInside(vertices, edges, normal, seen + [point]))
      ensures |pts| <= |r| && r[..|pts|] == pts
      ensures forall k :: |pts| <= k < |r| ==> fresh(r[k])
      ensures Distinct(pts) ==> Distinct(r)
    {
      var inside := IsPointInside(point);
      if inside {
        var interiorPoint := new CzmPoint(point, InteriorPoint);
        KeepStep(pts, vertices, edges, normal, seen, interiorPoint);
        DistinctSnoc(pts, interiorPoint);
        r := pts + [interiorPoint];
        assert r[..|pts|] == pts;
      } else {
        SkipStep(pts, vertices, edges, normal, seen, point);
        r := pts;
      }
    }

    /** The same step for the equal-area generator, which collects
        positions before it makes points of them. */
    method KeepIfInside(ps: seq<Vec3D>, point: Vec3D, ghost seen: seq<Vec3D>) returns (r: seq<Vec3D>)
      requires ps == KeepInside(vertices, edges, normal, seen)
      ensures r == KeepInside(vertices, edges, normal, seen + [point])
    {
      var inside := IsPointInside(point);
      KeepInsideSnoc(vertices, edges, normal, seen, point);
      if inside {
        r := ps + [point];
      } else {
        r := ps;
      }
    }

    /** The lines strictly inside an `nx` by `ny` grid over the bounding box
        that pass the point-in-face test, as interior points. */
    method GenerateInteriorGridPoints(nx: int, ny: int) returns (pts: seq<CzmPoint>)
      requires |vertices| > 0
      ensures InteriorPointsAt(pts, KeepInside(vertices, edges, normal, InteriorGrid(Bounds(vertices), nx, ny)))
      ensures forall k :: 0 <= k < |pts| ==> fresh(pts[k])
      ensures Distinct(pts)
    {
      var b := BoundingBox();
      ghost var vs, es, nm := vertices, edges, normal;
      var spacingX := Spacing(b.minX, b.maxX, nx);
      var spacingY := Spacing(b.minY, b.maxY, ny);
      pts := [];
      ghost var seen: seq<Vec3D> := [];
      var i := 1;
      while i < nx - 1
        invariant 1 <= i && (i <= nx - 1 || i == 1)
        invariant seen == Grid(b.minX, spacingX, 1, i, b.minY, spacingY, 1, ny - 1, b.minZ)
        invariant InteriorPointsAt(pts, KeepInside(vs, es, nm, seen))
        invariant forall k :: 0 <= k < |pts| ==> fresh(pts[k])
        invariant Distinct(pts)
      {
        pts := InteriorColumn(pts, b, spacingX, spacingY, i, ny, seen);
        seen := seen + Column(b.minX, spacingX, i, b.minY, spacingY, 1, ny - 1, b.minZ);
        i := i + 1;
      }
    }

    /** The inner loop of the interior generator: the rows `1` to `ny - 2`
        on column line `i`. */
    method InteriorColumn(pts: seq<CzmPoint>, b: Box, spacingX: real, spacingY: real, i: int, ny: int,
                          ghost seen: seq<Vec3D>)
      returns (r: seq<CzmPoint>)
      requires InteriorPointsAt(pts, KeepInside(vertices, edges, normal, seen))
      ensures InteriorPointsAt(r, KeepInside(vertices, edges, normal,
        seen + Column(b.minX, spacingX, i, b.minY, spacingY, 1, ny - 1, b.minZ)))
      ensures |pts| <= |r| && r[..|pts|] == pts
      ensures forall k :: |pts| <= k < |r| ==> fresh(r[k])
      ensures Distinct(pts) ==> Distinct(r)
    {
      ghost var vs, es, nm := vertices, edges, normal;
      r := pts;
      ghost var row := seen;
      var j := 1;
      assert seen + Column(b.minX, spacingX, i, b.minY, spacingY, 1, 1, b.minZ) == seen;
      while j < ny - 1
        invariant 1 <= j && (j <= ny - 1 || j == 1)
        invariant row == seen + Column(b.minX, spacingX, i, b.minY, spacingY, 1, j, b.minZ)
        invariant InteriorPointsAt(r, KeepInside(vs, es, nm, row))
        invariant |pts| <= |r| && r[..|pts|] == pts
        invariant forall k :: |pts| <= k < |r| ==> fresh(r[k])
        invariant Distinct(pts) ==> Distinct(r)
      {
        var point := GridPoint(b.minX, spacingX, i, b.minY, spacingY, j, b.minZ);
        r := AddIfInside(r, point, row);
        row := row + [point];
        j := j + 1;
      }
      if j != ny - 1 {
        assert Column(b.minX, spacingX, i, b.minY, spacingY, 1, j, b.minZ) == [];
        assert Column(b.minX, spacingX, i, b.minY, spacingY, 1, ny - 1, b.minZ) == [];
      }
    }

    /** Lines `edgeLength / (n - 1)` apart, `edgeLength` being the first
        edge's length, from the bounding box's low corner up to its far
        sides, that pass the point-in-face test, as interior points. With one
        point per edge the spacing is infinite, or NaN when the first edge has
        zero length, and only the corner is tried. */
    method GenerateUniformGridPoints(n: int, sqrt: real -> real) returns (pts: seq<CzmPoint>)
      requires |vertices| > 0 && |edges| > 0
      requires n == 1 || (n >= 2 && Length(edges[0], sqrt) > 0.0)
      ensures InteriorPointsAt(pts, KeepInside(vertices, edges, normal,
        UniformSpacedGrid(Bounds(vertices), Length(edges[0], sqrt), n)))
      ensures forall k :: 0 <= k < |pts| ==> fresh(pts[k])
      ensures Distinct(pts)
    {
      var b := BoundingBox();
      var edgeLength := Length(edges[0], sqrt);
      if n == 1 {
        var corner := Vec3D(b.minX, b.minY, b.minZ);
        CornerOnly(b.minX, b.minY, b.minZ);
        pts := AddIfInside([], corner, []);
        return;
      }
      var spacing := edgeLength / (n - 1) as real;
      QuotientPositive(edgeLength, (n - 1) as real);
      ghost var countX := Steps(b.minX, b.maxX, spacing);
      ghost var countY := Steps(b.minY, b.maxY, spacing);
      ghost var vs, es, nm := vertices, edges, normal;
      pts := [];
      ghost var seen: seq<Vec3D> := [];
      var x := b.minX;
      ghost var i := 0;
      while x <= b.maxX
        invariant 0 <= i <= countX
        invariant x == Line(b.minX, spacing, i)
        invariant seen == Grid(b.minX, spacing, 0, i, b.minY, spacing, 0, countY, b.minZ)
        invariant InteriorPointsAt(pts, KeepInside(vs, es, nm, seen))
        invariant forall k :: 0 <= k < |pts| ==> fresh(pts[k])
        invariant Distinct(pts)
        decreases countX - i
      {
        StepBound(b.minX, b.maxX, spacing, i);
        pts := UniformColumn(pts, x, i, b, spacing, seen);
        seen := seen + Column(b.minX, spacing, i, b.minY, spacing, 0, countY, b.minZ);
        NextLine(b.minX, spacing, i);
        x := x + spacing;
        i := i + 1;
      }
      StepBound(b.minX, b.maxX, spacing, i);
    }

    /** The inner loop of the uniform generator: the rows `minY`,
        `minY + s`, ... up to the box's far side, on column line `x`. */
    method UniformColumn(pts: seq<CzmPoint>, x: real, ghost i: int, b: Box, spacing: real, ghost seen: seq<Vec3D>)
      returns (r: seq<CzmPoint>)
      requires spacing > 0.0 && 0 <= i && x == Line(b.minX, spacing, i)
      requires InteriorPointsAt(pts, KeepInside(vertices, edges, normal, seen))
      ensures InteriorPointsAt(r, KeepInside(vertices, edges, normal,
        seen + Column(b.minX, spacing, i, b.minY, spacing, 0, Steps(b.minY, b.maxY, spacing), b.minZ)))
      ensures |pts| <= |r| && r[..|pts|] == pts
      ensures forall k :: |pts| <= k < |r| ==> fresh(r[k])
      ensures Distinct(pts) ==> Distinct(r)
    {
      ghost var countY := Steps(b.minY, b.maxY, spacing);
      ghost var vs, es, nm := vertices, edges, normal;
      r := pts;
      ghost var row := seen;
      var y := b.minY;
      ghost var j := 0;
      assert seen + Column(b.minX, spacing, i, b.minY, spacing, 0, 0, b.minZ) == seen;
      while y <= b.maxY
        invariant 0 <= j <= countY
        invariant y == Line(b.minY, spacing, j)
        invariant row == seen + Column(b.minX, spacing, i, b.minY, spacing, 0, j, b.minZ)
        invariant InteriorPointsAt(r, KeepInside(vs, es, nm, row))
        invariant |pts| <= |r| && r[..|pts|] == pts
        invariant forall k :: |pts| <= k < |r| ==> fresh(r[k])
        invariant Distinct(pts) ==> Distinct(r)
        decreases countY - j
      {
        StepBound(b.minY, b.maxY, spacing, j);
        var point := Vec3D(x, y, b.minZ);
        assert point == GridPoint(b.minX, spacing, i, b.minY, spacing, j, b.minZ);
        r := AddIfInside(r, point, row);
        row := row + [point];
        NextLine(b.minY, spacing, j);
        y := y + spacing;
        j := j + 1;
      }
      StepBound(b.minY, b.maxY, spacing, j);
    }

    /** The lines of an `nx` by `ny` grid over the bounding box that pass
        the point-in-face test, column by column. */
    method EqualAreaCandidates(nx: int, ny: int) returns (initialPoints: seq<Vec3D>)
      requires |vertices| > 0
      ensures initialPoints == KeepInside(vertices, edges, normal, EqualAreaGrid(Bounds(vertices), nx, ny))
    {
      var b := BoundingBox();
      var spacingX := Spacing(b.minX, b.maxX, nx);
      var spacingY := Spacing(b.minY, b.maxY, ny);
      ghost var vs, es, nm := vertices, edges, normal;
      initialPoints := [];
      ghost var seen: seq<Vec3D> := [];
      var i := 0;
      while i < nx
        invariant 0 <= i && (i <= nx || i == 0)
        invariant seen == Grid(b.minX, spacingX, 0, i, b.minY, spacingY, 0, ny, b.minZ)
        invariant initialPoints == KeepInside(vs, es, nm, seen)
      {
        ghost var before := seen;
        var j := 0;
        assert before + Column(b.minX, spacingX, i, b.minY, spacingY, 0, 0, b.minZ) == before;
        while j < ny
          invariant 0 <= j && (j <= ny || j == 0)
          invariant seen == before + Column(b.minX, spacingX, i, b.minY, spacingY, 0, j, b.minZ)
          invariant initialPoints == KeepInside(vs, es, nm, seen)
        {
          var point := GridPoint(b.minX, spacingX, i, b.minY, spacingY, j, b.minZ);
          initialPoints := KeepIfInside(initialPoints, point, seen);
          seen := seen + [point];
          j := j + 1;
        }
        GridStep(b.minX, spacingX, 0, i, b.minY, spacingY, 0, j, ny, b.minZ);
        i := i + 1;
      }
    }

    /** Up to `numPoints` interior points, drawn from the accepted lines of
        an `nx` by `ny` grid over the bounding box; when more pass, a random
        selection of them. */
    method GenerateEqualAreaPoints(numPoints: int, nx: int, ny: int) returns (pts: seq<CzmPoint>)
      requires |vertices| >= 3 && numPoints > 0 ==> nx != 1 && ny != 1
      ensures |vertices| < 3 || numPoints <= 0 ==> pts == []
      ensures |vertices| >= 3 && numPoints > 0 ==>
        exists chosen :: Selection(chosen, KeepInside(vertices, edges, normal,
          EqualAreaGrid(Bounds(vertices), nx, ny)), numPoints) && InteriorPointsAt(pts, chosen)
      ensures forall k :: 0 <= k < |pts| ==> fresh(pts[k])
      ensures Distinct(pts)
    {
      if |vertices| < 3 || numPoints <= 0 {
        return [];
      }
      var initialPoints := EqualAreaCandidates(nx, ny);
      ghost var candidates := initialPoints;
      if |initialPoints| > numPoints {
        var shuffled: seq<Vec3D> :| multiset(shuffled) == multiset(initialPoints);
        initialPoints := shuffled[..numPoints];
      }
      assert Selection(initialPoints, candidates, numPoints);
      pts := ToInteriorPoints(initialPoints);
    }
  }

  /** A new point at `position`, tagged as an edge point of edge `k`. */
  method NewEdgePoint(position: Vec3D, k: nat) returns (point: CzmPoint)
    ensures fresh(point)
    ensures point.position == position && point.pointType == EdgePoint && point.edge == Some(k)
  {
    point := new CzmPoint(position, EdgePoint);
    point.SetEdge(Some(k));
  }

  /** One interior point per position, in order. */
  method ToInteriorPoints(ps: seq<Vec3D>) returns (pts: seq<CzmPoint>)
    ensures InteriorPointsAt(pts, ps)
    ensures forall k :: 0 <= k < |pts| ==> fresh(pts[k])
    ensures Distinct(pts)
  {
    pts := [];
    var k := 0;
    while k < |ps|
      invariant 0 <= k <= |ps|
      invariant InteriorPointsAt(pts, ps[..k])
      invariant forall m :: 0 <= m < |pts| ==> fresh(pts[m])
      invariant Distinct(pts)
    {
      var point := new CzmPoint(ps[k], InteriorPoint);
      InteriorPointsAtSnoc(pts, ps[..k], point);
      DistinctSnoc(pts, point);
      assert ps[..k + 1] == ps[..k] + [ps[k]];
      pts := pts + [point];
      k := k + 1;
    }
    assert ps[..k] == ps;
  }

  /** Insertion sort by the angle key: a sorted rearrangement of `vs`. */
  method SortByKey(vs: seq<Vec3D>, c: Vec3D, atan2: (real, real) -> real) returns (r: seq<Vec3D>)
    ensures |r| == |vs|
    ensures multiset(r) == multiset(vs)
    ensures SortedByKey(r, c, atan2)
  {
    r := [];
    var i := 0;
    while i < |vs|
      invariant 0 <= i <= |vs|
      invariant |r| == i
      invariant multiset(r) == multiset(vs[..i])
      invariant SortedByKey(r, c, atan2)
    {
      assert vs[..i + 1] == vs[..i] + [vs[i]];
      r := InsertByKey(r, vs[i], c, atan2);
      i := i + 1;
    }
    assert vs[..|vs|] == vs;
  }
}
