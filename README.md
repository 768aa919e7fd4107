# czm-face in Dafny

A model of the face-geometry engine of czm-face. The engine works on a
planar triangle or quadrilateral, the "face", and does the following:

- stores the face's corners;
- orders a quadrilateral's corners by their angle about the centre;
- builds the closed ring of edges and derives the unit normal;
- answers point-in-face queries by the even-odd ray-casting rule, after
  projecting the query point onto the face plane;
- generates sample points with several generators: points along the edges,
  a grid of interior points, a uniformly spaced grid, and an equal-area
  random subset of a grid.

The model is split into six modules, one file each:

- `Vec3` (`vec3d.dfy`): 3D vectors, the value type the engine takes from
  its vector library. It holds the arithmetic lemmas the other modules need.
- `Edges` (`edge.dfy`): the `Edge` value. It covers the stored endpoints,
  the squared length and the length, the direction, and the
  order-independent equality with its laws.
- `Points` (`czm_point.dfy`): the sample point `CzmPoint`. It is a class,
  because `setEdge` updates it in place. The edge pointer becomes the edge's
  index in the face's edge sequence, and `None` stands for the null pointer.
- `FaceGeometry` (`face_geometry.dfy`): the value-level geometry of a face,
  with the properties proved about it. It covers:
  - the centre;
  - the angle sort key and insertion into a key-sorted sequence;
  - the edge ring;
  - the normal;
  - the projection and the even-odd crossing count;
  - the bounding box.
- `Sampling` (`sampling.dfy`): the candidate point sets the generators walk,
  with the properties proved about them. It covers:
  - the edge samples;
  - the grids, in column-then-row order;
  - the line counts of the uniform grid;
  - the filter that keeps the candidates inside the face;
  - the equal-area selection.
- `Faces` (`czm_face.dfy`): the face object `CzmFace`. It is a class whose
  `CreateFace` updates the vertices, edges and normal in place. Each
  generator is a method with the source's loops. Its postcondition ties the
  points returned to a specification function in `Sampling`.

Calls into numerics the model does not reproduce are parameters of the
members that need them:

- `sqrt` is a function `real -> real`. Lemmas that need the genuine square
  root require `IsSquareRoot`.
- `atan2` is a function `(real, real) -> real`.
- The grid sizes that the engine derives with `ceil` from the face's area are
  the parameters `nx` and `ny`.

Coordinates are Dafny `real`s, that is, exact arithmetic.

## Model

| member | source | states |
|---|---|---|
| Edges.LengthSquared | src/czm_face/edge.cpp:12-19 | the radicand dx²+dy²+dz² of the length is non-negative, and positive exactly when the start and end differ |
| Edges.LengthSquaredSymmetric | src/czm_face/edge.cpp:12-19 | reversing an edge does not change its length |
| Edges.LengthZeroIff | src/czm_face/edge.cpp:12-19 | with a genuine square root, the length is ≥ 0, and > 0 exactly for a non-degenerate edge |
| Edges.Direction | src/czm_face/edge.cpp:21-30 | for a positive length, the direction times the length is `end - start`; otherwise it is the zero vector |
| Edges.DirectionZeroIff | src/czm_face/edge.cpp:21-30 | with a genuine square root, the direction is zero exactly for a degenerate edge |
| Edges.DirectionUnitLength | src/czm_face/edge.cpp:21-30 | with a genuine square root, the direction of a non-degenerate edge has unit length |
| Edges.Equal | src/czm_face/edge.cpp:32-50 | the six-coordinate comparison holds exactly when the edges are the same or one is the other reversed |
| Edges.EqualReflexive | src/czm_face/edge.cpp:32-50 | every edge equals itself |
| Edges.EqualSymmetric | src/czm_face/edge.cpp:32-50 | edge equality is symmetric |
| Edges.EqualOrderIndependent | src/czm_face/edge.cpp:34-47 | an edge equals its reverse |
| Edges.EqualTransitive | src/czm_face/edge.cpp:32-50 | edge equality is transitive |
| Edges.EqualSameLength | src/czm_face/edge.cpp:12-50 | equal edges have the same length |
| Points.CzmPoint.constructor | src/czm_face/czm_point.cpp:6-9 | stores the position and the type; the edge reference starts as null (czm_point.hpp:45) |
| Points.CzmPoint.SetEdge | src/czm_face/czm_point.hpp:37 | replaces the edge reference and leaves the position and the type unchanged |
| Points.Positions | src/czm_face/czm_point.hpp:31 | `getPosition` of each point, in order and with the same length |
| FaceGeometry.Center | src/czm_face/czm_face.cpp:153-170 | zero for fewer than three vertices; three times the centre is the sum of a triangle's corners; four times the centre is the sum of the first four corners |
| FaceGeometry.SumPermutation | src/czm_face/czm_face.cpp:56-73 | the vector sum does not depend on the order of the summands |
| FaceGeometry.CenterPermutation | src/czm_face/czm_face.cpp:50-74 | every reordering of a quadrilateral's corners has the same centre, so sorting keeps the centre it sorted about |
| FaceGeometry.InsertByKey | src/czm_face/czm_face.cpp:59-73 | inserting into a sequence sorted by the `atan2` key keeps it sorted and adds exactly the new corner |
| FaceGeometry.EdgeRingCloses | src/czm_face/czm_face.cpp:40-48 | each edge ends where the next one (cyclically) starts; the first starts and the last ends at vertex 0 |
| FaceGeometry.NormalPositiveMultiple | src/czm_face/czm_face.cpp:76-99 | for three or more vertices, the normal is a positive multiple of `cross(v1 - v0, v2 - v0)` |
| FaceGeometry.NormalOrthogonal | src/czm_face/czm_face.cpp:85-98 | the normal is orthogonal to `v1 - v0` and `v2 - v0` |
| FaceGeometry.NormalZeroIff | src/czm_face/czm_face.cpp:76-99 | the normal is zero for fewer than three vertices; otherwise it is zero exactly when the cross product is (collinear corners) |
| FaceGeometry.NormalUnitLength | src/czm_face/czm_face.cpp:92-98 | with a genuine square root, a non-degenerate face has a unit normal |
| FaceGeometry.ProjectInPlane | src/czm_face/czm_face.cpp:391-397 | for a unit normal, the projected point lies in the plane through vertex 0 |
| FaceGeometry.StraddleSpan | src/czm_face/czm_face.cpp:407-411 | the straddle test holds exactly when the height lies in the edge's half-open y-span, so the divisor at line 411 is never zero |
| FaceGeometry.Crossings | src/czm_face/czm_face.cpp:400-418 | the crossing count is at most the number of edges; it is zero when no edge is crossed and all of them when every edge is |
| FaceGeometry.CrossingXOnEdge | src/czm_face/czm_face.cpp:409-412 | the crossing abscissa lies between the x coordinates of the edge's endpoints |
| FaceGeometry.CrossesReversed | src/czm_face/czm_face.cpp:407-416 | reversing an edge changes neither whether the ray crosses it nor where |
| FaceGeometry.OutsideBeyondEdges | src/czm_face/czm_face.cpp:386-421 | a point above, below or to the right of every edge is outside |
| FaceGeometry.LeftOfEdge | src/czm_face/czm_face.cpp:407-416 | a point left of both ends of an edge crosses it exactly when the edge straddles its height |
| FaceGeometry.RingBalanced | src/czm_face/czm_face.cpp:40-48 | the closed edge ring rises above any height as often as it falls below it |
| FaceGeometry.CrossingsBySide | src/czm_face/czm_face.cpp:400-418 | when the crossed edges are exactly the chosen rising or falling ones, the count is their number |
| FaceGeometry.RingCrossingsEven | src/czm_face/czm_face.cpp:400-420 | a ring whose straddling edges are all crossed gives an even count |
| FaceGeometry.OutsideLeftOfRing | src/czm_face/czm_face.cpp:386-421 | a point whose projection lies left of every vertex is outside |
| FaceGeometry.CrossesBySide | src/czm_face/czm_face.cpp:407-416 | a straddling edge is crossed exactly when it rises with the point on its left, or falls with the point on its right |
| FaceGeometry.CentroidCrossesOnce | src/czm_face/czm_face.cpp:400-418 | the ray from the centroid of a triangle that is not degenerate in the xy-plane crosses exactly one edge |
| FaceGeometry.CentreInPlane | src/czm_face/czm_face.cpp:153-170 | a triangle's centre is its centroid and lies in the triangle's plane, so projecting it changes nothing |
| FaceGeometry.TriangleCentreInside | src/czm_face/czm_face.cpp:386-421 | a triangle that is not seen edge-on from above (the z component of its cross product is not zero) holds its own centre |
| FaceGeometry.CentroidCrossesNone | src/czm_face/czm_face.cpp:400-418 | the ray from the centroid of a triangle seen edge-on from above crosses none of its edges |
| FaceGeometry.TriangleEdgeOnCentreOutside | src/czm_face/czm_face.cpp:386-421 | a triangle seen edge-on from above (the z component of its cross product is zero), level or not, reports its own centre outside |
| FaceGeometry.TriangleCentreInsideIff | src/czm_face/czm_face.cpp:386-421 | a triangle holds its own centre exactly when it is not seen edge-on from above |
| FaceGeometry.Wraps | src/czm_face/czm_face.cpp:407-416 | three corners above, at or below, and above `q`'s height whose first two sides turn one way about `q` make the closing side turn that way too |
| FaceGeometry.EdgeBySense | src/czm_face/czm_face.cpp:407-416 | an edge turning positively about the point is crossed exactly when it rises, and one turning negatively exactly when it falls |
| FaceGeometry.QuadCrossesOnce | src/czm_face/czm_face.cpp:400-418 | the ray from the mean of four corners whose sides all turn the same way about it crosses exactly one side; corners that alternate above and below that mean cannot all turn one way |
| FaceGeometry.QuadCentreInPlane | src/czm_face/czm_face.cpp:153-170 | a coplanar quadrilateral's centre is the mean of its corners and a fixed point of the projection |
| FaceGeometry.QuadCentreInside | src/czm_face/czm_face.cpp:386-421 | a coplanar quadrilateral whose sides, seen from above, all turn the same way about its centre holds its own centre; a convex face that is not seen edge-on from above is meant, since a level face has no such order |
| FaceGeometry.LevelFaceOutside | src/czm_face/czm_face.cpp:386-421 | a level face, whose corners all lie at one height y, reports every point at that height outside, whatever the square root |
| FaceGeometry.LevelCentreOutside | src/czm_face/czm_face.cpp:386-421 | so the centre of a level triangle or quadrilateral (all corners at one height y), convex or not, is reported outside |
| FaceGeometry.UnitTriangleNormal | src/czm_face/czm_face.cpp:76-99 | with a genuine square root, the normal derived for the unit right triangle (0,0,0), (1,0,0), (0,1,0) is (0,0,1), the normal the two worked examples below use |
| FaceGeometry.TriangleHolds | src/czm_face/czm_face.cpp:386-421 | worked example: the unit right triangle, with its derived normal, holds (1/4, 1/4) at any height above its plane |
| FaceGeometry.TriangleMisses | src/czm_face/czm_face.cpp:386-421 | worked example: the unit right triangle, with its derived normal, holds no point above its top corner |
| FaceGeometry.BoundsContain | src/czm_face/czm_face.cpp:283-295 | the bounding box contains every vertex |
| FaceGeometry.BoundsTight | src/czm_face/czm_face.cpp:283-295 | each of the box's six sides is attained by some vertex |
| FaceGeometry.ExtendContained | src/czm_face/czm_face.cpp:287-295 | growing the box by a point it already holds changes nothing |
| Sampling.Lerp | src/czm_face/czm_face.cpp:209-211 | interpolation at t = 0 gives the start and at t = 1 the end |
| Sampling.ParamRange | src/czm_face/czm_face.cpp:207 | `t = i / (n - 1)` lies in [0, 1], is 0 for the first sample and 1 for the last |
| Sampling.EdgeRun | src/czm_face/czm_face.cpp:205-216 | the first `m` samples of an edge are the interpolations at `i / (n - 1)`, in order |
| Sampling.EdgeSamplesLength | src/czm_face/czm_face.cpp:200-217 | there are `n` samples per edge, none when `n` ≤ 0 |
| Sampling.EdgeSampleAt | src/czm_face/czm_face.cpp:200-217 | sample `i` of edge `k` is at index `k * n + i` |
| Sampling.EdgeSampleEnds | src/czm_face/czm_face.cpp:205-211 | the first sample of each edge is its start and the last one its end |
| Sampling.RingSamplesMeet | src/czm_face/czm_face.cpp:200-217 | on the edge ring, the last sample of each edge is the first sample of the next, the last edge meeting the first |
| Sampling.Column | src/czm_face/czm_face.cpp:264-266 | one grid column holds the rows `jLo ..< jHi` in increasing order |
| Sampling.GridLength | src/czm_face/czm_face.cpp:262-273 | the number of grid candidates is columns times rows |
| Sampling.GridMembers | src/czm_face/czm_face.cpp:356-366 | the grid holds exactly the points `(minX + i·sx, minY + j·sy, minZ)` of its columns and rows |
| Sampling.StepBound | src/czm_face/czm_face.cpp:302-304 | line `i` of the uniform grid does not pass the far side exactly when `i` is below the line count |
| Sampling.KeepInsideSound | src/czm_face/czm_face.cpp:267-271 | the filter keeps exactly the candidates that pass the point-in-face test, none more often than it occurs |
| Sampling.KeepInsideAppend | src/czm_face/czm_face.cpp:262-273 | filtering a concatenation filters each part, so columns can be filtered one at a time |
| Sampling.SelectionDrawn | src/czm_face/czm_face.cpp:368-375 | the selection holds `min(numPoints, candidates)` points, drawn from the candidates without repetition |
| Sampling.SelectionInside | src/czm_face/czm_face.cpp:361-375 | every selected point passes the point-in-face test |
| Faces.EdgePointCount | src/czm_face/czm_face.cpp:197-219 | the edge generator returns `n` points per edge |
| Faces.EdgePointAt | src/czm_face/czm_face.cpp:205-215 | edge point `j` lies at parameter `(j % n) / (n - 1)` along edge `j / n`, is an edge point, and refers to that edge |
| Faces.InteriorPointsInside | src/czm_face/czm_face.cpp:262-273 | every point a filtering generator returns is a candidate inside the face, an interior point, and has no edge |
| Faces.SelectedPoints | src/czm_face/czm_face.cpp:318-384 | the equal-area generator returns `min(numPoints, candidates)` interior points, inside the face and drawn from the candidates without repetition |
| Faces.CzmFace.constructor | src/czm_face/czm_face.hpp:24 | a new face has no vertices, no edges and the zero normal, and is valid; the zero normal assumes `Vec3D`'s default constructor gives the zero vector, and that constructor is not part of this model |
| Faces.CzmFace.CreateFace | src/czm_face/czm_face.cpp:14-38 | succeeds exactly for three or four corners and otherwise changes nothing. A triangle is stored as given and a quadrilateral as its sorted rearrangement. The edges form the ring and the normal is recomputed |
| Faces.CzmFace.CreateEdges | src/czm_face/czm_face.cpp:40-48 | rebuilds the edge ring of the vertices; nothing else changes |
| Faces.CzmFace.SortQuadVertices | src/czm_face/czm_face.cpp:50-74 | a quadrilateral becomes a rearrangement of its corners, sorted by the angle key about its original centre; any other face is left alone |
| Faces.CzmFace.CalculateNormal | src/czm_face/czm_face.cpp:76-99 | the normal becomes the face normal of the vertices; nothing else changes |
| Faces.CzmFace.BoundingBox | src/czm_face/czm_face.cpp:283-295 | the min/max loop over the vertices computes the bounding box |
| Faces.CzmFace.IsPointInside | src/czm_face/czm_face.cpp:386-421 | the loop's answer is the even-odd rule on the projected point, false for fewer than three vertices |
| Faces.CzmFace.GeneratePointGrid | src/czm_face/czm_face.cpp:172-195 | dispatches on the method, edge-and-interior when none is given (czm_face.hpp:57-58); edge-and-interior gives the edge points followed by the interior points; the points are new objects, no two the same |
| Faces.CzmFace.GenerateEdgePoints | src/czm_face/czm_face.cpp:197-219 | the points are the edge samples in order, each an edge point of edge `k / n`; the points are new objects, no two the same |
| Faces.CzmFace.EdgeRunPoints | src/czm_face/czm_face.cpp:202-216 | the `n` points of edge `k` extend the points of the edges before it to those of the first `k + 1` edges; earlier points are kept, the appended ones are new, and distinct points stay distinct |
| Faces.NewEdgePoint | src/czm_face/czm_face.cpp:213-214 | a new point at the position, tagged as an edge point of edge `k` |
| Faces.CzmFace.AddIfInside | src/czm_face/czm_face.cpp:267-271 | a candidate is appended as an interior point exactly when it passes the test; earlier points are kept and the appended one is new, so distinct points stay distinct |
| Faces.CzmFace.KeepIfInside | src/czm_face/czm_face.cpp:361-364 | a candidate position is kept exactly when it passes the test |
| Faces.CzmFace.GenerateInteriorGridPoints | src/czm_face/czm_face.cpp:262-275 | the points are the interior grid lines (indices 1 to n-2) inside the face, in loop order, as interior points; the points are new objects, no two the same |
| Faces.CzmFace.InteriorColumn | src/czm_face/czm_face.cpp:264-272 | one column of the interior grid, rows 1 to `ny - 2`, is filtered through the test; earlier points are kept, the appended ones are new, and distinct points stay distinct |
| Faces.CzmFace.GenerateUniformGridPoints | src/czm_face/czm_face.cpp:278-316 | the points are the candidates of the uniformly spaced grid, spacing `edges[0].length() / (n - 1)`, that lie inside the face, in loop order; the points are new objects, no two the same |
| Faces.CzmFace.UniformColumn | src/czm_face/czm_face.cpp:304-312 | one column of the uniform grid is filtered through the test; earlier points are kept, the appended ones are new, and distinct points stay distinct |
| Faces.CzmFace.EqualAreaCandidates | src/czm_face/czm_face.cpp:354-366 | the candidate positions are the equal-area grid lines inside the face, in loop order |
| Faces.CzmFace.GenerateEqualAreaPoints | src/czm_face/czm_face.cpp:318-384 | empty for fewer than three vertices or a non-positive count; otherwise the interior points of some selection of the accepted candidates; the points are new objects, no two the same |
| Faces.ToInteriorPoints | src/czm_face/czm_face.cpp:377-381 | one interior point per position, in order; the points are new objects, no two the same |
| Faces.SortByKey | src/czm_face/czm_face.cpp:59-73 | the result is a sorted rearrangement of the corners |

## Left out

- `getVersion`, `calculateArea` and `calculatePerimeter` (czm_face.cpp:9-12, 101-151) are not modelled. No generator in the model uses the area.
- `GenerateInteriorGridPoints` and `GenerateEqualAreaPoints`: the grid sizes are the parameters `nx` and `ny`. The engine computes them with `sqrt`, `ceil` and the area (czm_face.cpp:226-259, 325-352), and that derivation is out of scope.
- `GenerateUniformGridPoints`: the source steps `x += spacing` and `y += spacing` in floating point. The model walks the exact lines `minX + i·spacing`, so rounding drift in the number of lines is not captured.
- `GenerateUniformGridPoints` requires one point per edge, or at least two points per edge and a first edge of positive length. For any other input the source's loop never ends, because the spacing is zero or negative. With one point per edge the spacing is infinite, or NaN when the first edge has zero length; either way only the lowest corner is visited.
- `QuadCentreInside`: the centre is proved inside for coplanar quadrilaterals whose sides all turn the same way about the centre. The model does not prove that the angle sort of a convex face that is not seen edge-on from above produces such an order. For a quadrilateral that is not convex or not planar, nothing is claimed.
- The centre of a face is not inside in general. The ray cast uses only x and y (czm_face.cpp:400-418), so a face seen edge-on from above (the z component of its cross product is zero) has its centre reported outside. For triangles this is proved in full (`TriangleCentreInsideIff`). For quadrilaterals it is proved only for level faces, whose corners all lie at one height y (`LevelCentreOutside`); a quadrilateral seen edge-on from above but not level is not covered.
- `GenerateEqualAreaPoints` requires grid sizes other than 1, because a single grid line would divide by zero (czm_face.cpp:351-352).
- `Sampling.Spacing` stands in zero for the divisor-zero case of a one-line grid. The interior grid uses lines 1 to n-2, so a one-line interior grid has no lines and never uses the spacing. The equal-area grid uses lines 0 to n-1, so a one-line grid would use it on its one line. `GenerateEqualAreaPoints` requires `nx != 1 && ny != 1` for that reason. In the source, that line's coordinate is `0 * inf` or `0 * NaN`, which is NaN. A NaN point fails every comparison at czm_face.cpp:407, so the source returns an empty list there.
- `GenerateEqualAreaPoints`: the `std::mt19937` shuffle seeded from `std::random_device` is modelled as an arbitrary rearrangement (`:|`), so only its permutation property is kept.
- `GeneratePointGrid`: the method is its last parameter, so that it can keep the default `EdgeAndInterior` of src/czm_face/czm_face.hpp:57-58 after the extra parameters.
- `GeneratePointGrid`: it takes the grid sizes as extra parameters. The `default:` branch of the switch is not modelled, because a Dafny datatype match is exhaustive.
- `GeneratePointGrid`, `GenerateEdgePoints` and `Sampling.Param` require `n ≠ 1` where the edge generator runs, because `t = i / (n - 1)` divides by zero for one point per edge.
- Generators that read `vertices_[0]` (the bounding box) require a non-empty face. On an empty face the source has undefined behaviour.
- `SortQuadVertices` and `SortByKey`: `std::sort` is not stable, so only "sorted by the key, and a rearrangement" is stated, not which rearrangement. The comparator's `atan2` is a parameter.
- `Vec3D`'s own implementation belongs to an external library, and only the operations used are modelled. `main.cpp` and `core.hpp` are not modelled.
- Copy and move construction of `CZM_Point` and `CzmFace`, and `CZM_Point`'s default constructor, are not modelled.
- The getters `getPosition`, `getType`, `getEdge`, `getVertices`, `getEdges` and `getNormal` are not separate members; they are field reads.
- The inner loops of the generators are separate helper methods: `EdgeRunPoints`, `InteriorColumn`, `UniformColumn`, `EqualAreaCandidates`, `ToInteriorPoints`, `AddIfInside`, `KeepIfInside` and `NewEdgePoint`. Each is still a loop, or one loop step, with the source's order.
- The edge pointer stored by `setEdge(&edge)` is modelled as the edge's index. Aliasing of the face's edge storage is not modelled.
- Floating-point rounding, infinities and NaN are not modelled; coordinates are exact reals.
