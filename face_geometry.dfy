/** The value-level geometry of a face: its centre, the angular sort key of a
    quadrilateral's corners, the cyclic edge ring, the normal, the
    point-in-polygon rule and the bounding box. The methods of `CzmFace` are
    proved against these functions. */
module FaceGeometry {
  import opened Vec3
  import opened Edges

  /** `std::min` and `std::max` on coordinates. */
  function Min(a: real, b: real): real {
    if b < a then b else a
  }

  function Max(a: real, b: real): real {
    if a < b then b else a
  }

  // ---------------------------------------------------------------------
  // Centre

  /** `calculateCenter`: the mean of a triangle's or a quadrilateral's
      corners, and the zero vector for fewer than three vertices. */
  function Center(vs: seq<Vec3D>): (c: Vec3D)
    ensures |vs| < 3 ==> c == Zero
    ensures |vs| == 3 ==> Scale(c, 3.0) == Add(Add(vs[0], vs[1]), vs[2])
    ensures |vs| >= 4 ==> Scale(c, 4.0) == Add(Add(Add(vs[0], vs[1]), vs[2]), vs[3])
  {
    if |vs| < 3 then
      Zero
    else if |vs| == 3 then
      DivScaleInverse(Add(Add(vs[0], vs[1]), vs[2]), 3.0);
      Div(Add(Add(vs[0], vs[1]), vs[2]), 3.0)
    else
      DivScaleInverse(Add(Add(Add(vs[0], vs[1]), vs[2]), vs[3]), 4.0);
      Div(Add(Add(Add(vs[0], vs[1]), vs[2]), vs[3]), 4.0)
  }

  /** The component-wise sum of a sequence of vectors. */
  function Sum(vs: seq<Vec3D>): Vec3D {
    if vs == [] then Zero else Add(Sum(vs[..|vs| - 1]), vs[|vs| - 1])
  }

  /** Summing a sequence with one element removed, then adding that
      element back, gives the whole sum. */
  lemma {:induction false} SumRemove(vs: seq<Vec3D>, k: nat)
    requires k < |vs|
    ensures Add(Sum(vs[..k] + vs[k + 1..]), vs[k]) == Sum(vs)
    decreases |vs|
  {
    var last := |vs| - 1;
    if k == last {
      assert vs[..k] + vs[k + 1..] == vs[..last];
    } else {
      var rest := vs[..k] + vs[k + 1..];
      assert rest[..|rest| - 1] == vs[..last][..k] + vs[..last][k + 1..];
      assert rest[|rest| - 1] == vs[last];
      SumRemove(vs[..last], k);
    }
  }

  /** The sum does not depend on the order of the summands. */
  lemma {:induction false} SumPermutation(vs: seq<Vec3D>, ws: seq<Vec3D>)
    requires multiset(vs) == multiset(ws)
    ensures Sum(vs) == Sum(ws)
    decreases |vs|
  {
    if vs != [] {
      var last := |vs| - 1;
      var v := vs[last];
      assert v in multiset(ws);
      var k :| 0 <= k < |ws| && ws[k] == v;
      var rest := ws[..k] + ws[k + 1..];
      assert ws == ws[..k] + [ws[k]] + ws[k + 1..];
      assert vs == vs[..last] + [v];
      assert multiset(vs) == multiset(vs[..last]) + multiset{v};
      assert multiset(ws) == multiset(ws[..k]) + multiset{v} + multiset(ws[k + 1..]);
      assert multiset(rest) == multiset(ws[..k]) + multiset(ws[k + 1..]);
      calc {
        multiset(vs[..last]);
        multiset(vs) - multiset{v};
        multiset(ws) - multiset{v};
        multiset(rest);
      }
      SumPermutation(vs[..last], rest);
      SumRemove(ws, k);
    } else {
      assert |ws| == |multiset(ws)|;
    }
  }

  /** The sum of four vectors, written out. */
  lemma SumOfFour(vs: seq<Vec3D>)
    requires |vs| == 4
    ensures Sum(vs) == Add(Add(Add(vs[0], vs[1]), vs[2]), vs[3])
  {
    var s1, s2, s3 := vs[..1], vs[..2], vs[..3];
    assert s1[..0] == [] && s2[..1] == s1 && s3[..2] == s2;
    assert Sum(s1) == Add(Zero, vs[0]) == vs[0];
    assert Sum(s2) == Add(vs[0], vs[1]);
    assert Sum(s3) == Add(Add(vs[0], vs[1]), vs[2]);
  }

  /** The centre of a quadrilateral is the same for every ordering of its
      corners; so sorting the corners about their mean keeps that mean. */
  lemma CenterPermutation(vs: seq<Vec3D>, ws: seq<Vec3D>)
    requires |vs| == 4 && multiset(vs) == multiset(ws)
    ensures Center(ws) == Center(vs)
  {
    assert |ws| == |multiset(ws)| == |multiset(vs)| == 4;
    SumPermutation(vs, ws);
    SumOfFour(vs);
    SumOfFour(ws);
  }

  // ---------------------------------------------------------------------
  // Ordering the corners of a quadrilateral

  /** The sort key of a corner `v`: the angle that `v - c` makes with the
      negative x axis, `atan2(dy, -dx)`, with `atan2` a parameter. */
  function AngleKey(v: Vec3D, c: Vec3D, atan2: (real, real) -> real): real {
    atan2(v.y - c.y, -(v.x - c.x))
  }

  /** The corners are in non-decreasing order of their angle key. */
  predicate SortedByKey(vs: seq<Vec3D>, c: Vec3D, atan2: (real, real) -> real) {
    forall i, j :: 0 <= i < j < |vs| ==> AngleKey(vs[i], c, atan2) <= AngleKey(vs[j], c, atan2)
  }

  /** Putting a corner no greater than every element in front of a sorted
      sequence keeps it sorted. */
  lemma SortedCons(x: Vec3D, vs: seq<Vec3D>, c: Vec3D, atan2: (real, real) -> real)
    requires SortedByKey(vs, c, atan2)
    requires forall i :: 0 <= i < |vs| ==> AngleKey(x, c, atan2) <= AngleKey(vs[i], c, atan2)
    ensures SortedByKey([x] + vs, c, atan2)
  {
    var r := [x] + vs;
    forall i, j | 0 <= i < j < |r|
      ensures AngleKey(r[i], c, atan2) <= AngleKey(r[j], c, atan2)
    {
      assert r[j] == vs[j - 1];
      if i > 0 {
        assert r[i] == vs[i - 1];
      }
    }
  }

  /** Every element of a rearrangement of `ws + [v]` is `v` or an element
      of `ws`. */
  lemma FromMultiset(r: seq<Vec3D>, ws: seq<Vec3D>, v: Vec3D, i: nat)
    requires multiset(r) == multiset(ws) + multiset{v} && i < |r|
    ensures r[i] == v || exists j :: 0 <= j < |ws| && ws[j] == r[i]
  {
    assert r[i] in multiset(r);
    if r[i] != v {
      assert r[i] in multiset(ws);
      assert r[i] in ws;
    }
  }

  /** The head of a sorted sequence stays below everything once a larger
      `v` is inserted into its tail. */
  lemma HeadBelow(vs: seq<Vec3D>, v: Vec3D, tail: seq<Vec3D>, c: Vec3D, atan2: (real, real) -> real)
    requires vs != [] && SortedByKey(vs, c, atan2)
    requires AngleKey(vs[0], c, atan2) <= AngleKey(v, c, atan2)
    requires multiset(tail) == multiset(vs[1..]) + multiset{v}
    ensures forall i :: 0 <= i < |tail| ==> AngleKey(vs[0], c, atan2) <= AngleKey(tail[i], c, atan2)
  {
    forall i | 0 <= i < |tail|
      ensures AngleKey(vs[0], c, atan2) <= AngleKey(tail[i], c, atan2)
    {
      FromMultiset(tail, vs[1..], v, i);
      if tail[i] != v {
        var j :| 0 <= j < |vs[1..]| && vs[1..][j] == tail[i];
        assert vs[j + 1] == tail[i];
      }
    }
  }

  /** Inserts `v` into a sequence sorted by the angle key, keeping it sorted
      and adding `v` and nothing else. */
  function InsertByKey(vs: seq<Vec3D>, v: Vec3D, c: Vec3D, atan2: (real, real) -> real): (r: seq<Vec3D>)
    requires SortedByKey(vs, c, atan2)
    ensures SortedByKey(r, c, atan2)
    ensures multiset(r) == multiset(vs) + multiset{v}
    ensures |r| == |vs| + 1
  {
    if vs == [] then
      [v]
    else if AngleKey(v, c, atan2) <= AngleKey(vs[0], c, atan2) then
      assert vs == [vs[0]] + vs[1..];
      SortedCons(v, vs, c, atan2);
      [v] + vs
    else
      var tail := InsertByKey(vs[1..], v, c, atan2);
      assert vs == [vs[0]] + vs[1..];
      HeadBelow(vs, v, tail, c, atan2);
      SortedCons(vs[0], tail, c, atan2);
      [vs[0]] + tail
  }

  // ---------------------------------------------------------------------
  // Edges

  /** `createEdges`: one edge per vertex, edge `i` running from vertex `i` to
      vertex `i + 1`, the last one closing the ring back to vertex 0. */
  ghost predicate EdgeRing(vs: seq<Vec3D>, es: seq<Edge>) {
    |es| == |vs| &&
    forall i :: 0 <= i < |es| ==> es[i] == Edge(vs[i], vs[(i + 1) % |vs|])
  }

  /** Consecutive edges of the ring meet: every edge ends where the next one
      starts, and the last edge ends at the first vertex. */
  lemma EdgeRingCloses(vs: seq<Vec3D>, es: seq<Edge>)
    requires EdgeRing(vs, es)
    ensures forall i :: 0 <= i < |es| ==> es[i].end == es[(i + 1) % |es|].start
    ensures |es| > 0 ==> es[|es| - 1].end == vs[0] && es[0].start == vs[0]
  {
    forall i | 0 <= i < |es|
      ensures es[i].end == es[(i + 1) % |es|].start
    {
      if i + 1 < |es| {
        assert (i + 1) % |es| == i + 1;
      } else {
        assert (i + 1) % |es| == 0;
      }
    }
    if |es| > 0 {
      assert (|es| - 1 + 1) % |vs| == 0;
    }
  }

  // ---------------------------------------------------------------------
  // Normal

  /** `cross(v1 - v0, v2 - v0)`, the un-normalised normal of the first three
      corners. */
  function CrossNormal(vs: seq<Vec3D>): Vec3D
    requires |vs| >= 3
  {
    Cross(Sub(vs[1], vs[0]), Sub(vs[2], vs[0]))
  }

  /** `calculateNormal`: zero for fewer than three vertices; otherwise the
      cross product divided by its magnitude, left as it is when the
      magnitude is not positive. */
  function FaceNormal(vs: seq<Vec3D>, sqrt: real -> real): Vec3D {
    if |vs| < 3 then
      Zero
    else
      var c := CrossNormal(vs);
      var magnitude := sqrt(NormSquared(c));
      if magnitude > 0.0 then Div(c, magnitude) else c
  }

  /** The normal is a positive multiple of the cross product. */
  lemma NormalPositiveMultiple(vs: seq<Vec3D>, sqrt: real -> real)
    requires |vs| >= 3
    ensures exists k :: k > 0.0 && Scale(FaceNormal(vs, sqrt), k) == CrossNormal(vs)
  {
    var c := CrossNormal(vs);
    var magnitude := sqrt(NormSquared(c));
    if magnitude > 0.0 {
      DivScaleInverse(c, magnitude);
      assert Scale(FaceNormal(vs, sqrt), magnitude) == c;
    } else {
      assert Scale(FaceNormal(vs, sqrt), 1.0) == c;
    }
  }

  /** The normal is orthogonal to both edge vectors it is built from. */
  lemma NormalOrthogonal(vs: seq<Vec3D>, sqrt: real -> real)
    requires |vs| >= 3
    ensures Dot(FaceNormal(vs, sqrt), Sub(vs[1], vs[0])) == 0.0
    ensures Dot(FaceNormal(vs, sqrt), Sub(vs[2], vs[0])) == 0.0
  {
    var c := CrossNormal(vs);
    var magnitude := sqrt(NormSquared(c));
    CrossOrthogonal(Sub(vs[1], vs[0]), Sub(vs[2], vs[0]));
    if magnitude > 0.0 {
      DotDiv(c, Sub(vs[1], vs[0]), magnitude);
      DotDiv(c, Sub(vs[2], vs[0]), magnitude);
    }
  }

  /** The normal is zero exactly when the first three corners are
      collinear, that is when their cross product vanishes; a face with
      fewer than three vertices has the zero normal. */
  lemma NormalZeroIff(vs: seq<Vec3D>, sqrt: real -> real)
    ensures |vs| < 3 ==> FaceNormal(vs, sqrt) == Zero
    ensures |vs| >= 3 ==> (FaceNormal(vs, sqrt) == Zero <==> CrossNormal(vs) == Zero)
  {
    if |vs| >= 3 {
      var c := CrossNormal(vs);
      var magnitude := sqrt(NormSquared(c));
      if magnitude > 0.0 {
        DivZero(c, magnitude);
      }
    }
  }

  /** With a genuine square root, the normal of a non-degenerate face has
      unit length. */
  lemma NormalUnitLength(vs: seq<Vec3D>, sqrt: real -> real)
    requires |vs| >= 3 && CrossNormal(vs) != Zero
    requires IsSquareRoot(sqrt(NormSquared(CrossNormal(vs))), NormSquared(CrossNormal(vs)))
    ensures NormSquared(FaceNormal(vs, sqrt)) == 1.0
  {
    DivByMagnitude(CrossNormal(vs), sqrt(NormSquared(CrossNormal(vs))));
  }

  // ---------------------------------------------------------------------
  // Point in polygon

  /** The point moved along the normal onto the plane through `v0`. */
  function Project(p: Vec3D, v0: Vec3D, n: Vec3D): Vec3D {
    MoveAlong(p, n, Dot(Sub(p, v0), n))
  }

  /** `p - n * d`, coordinate by coordinate. */
  function MoveAlong(p: Vec3D, n: Vec3D, d: real): Vec3D {
    Vec3D(p.x - n.x * d, p.y - n.y * d, p.z - n.z * d)
  }

  /** For a unit normal the projection lies in the plane of the face. */
  lemma ProjectInPlane(p: Vec3D, v0: Vec3D, n: Vec3D)
    requires NormSquared(n) == 1.0
    ensures Dot(Sub(Project(p, v0, n), v0), n) == 0.0
  {
    var d := Dot(Sub(p, v0), n);
    assert Dot(Sub(Project(p, v0, n), v0), n) == d - d * NormSquared(n);
  }

  /** The edge's y-span straddles the height `py`: exactly one endpoint lies
      strictly above it. */
  predicate Straddles(e: Edge, py: real) {
    (e.start.y > py) != (e.end.y > py)
  }

  /** A straddling edge spans `py` half-open (lowest end included, highest
      excluded), so its end points differ in y and the crossing's divisor is
      not zero. */
  lemma StraddleSpan(e: Edge, py: real)
    ensures Straddles(e, py) <==> Min(e.start.y, e.end.y) <= py < Max(e.start.y, e.end.y)
    ensures Straddles(e, py) ==> e.end.y - e.start.y != 0.0
  {
  }

  /** The x coordinate where the edge meets the horizontal line at height
      `py`. A straddling edge is never horizontal, so the divisor is not
      zero. */
  function CrossingX(e: Edge, py: real): real
    requires Straddles(e, py)
  {
    (e.end.x - e.start.x) * (py - e.start.y) / (e.end.y - e.start.y) + e.start.x
  }

  /** The horizontal ray from `q` towards +x crosses the edge. */
  predicate Crosses(e: Edge, q: Vec3D) {
    Straddles(e, q.y) && q.x < CrossingX(e, q.y)
  }

  /** The number of edges the ray from `q` crosses. */
  function Crossings(es: seq<Edge>, q: Vec3D): (r: nat)
    ensures r <= |es|
    ensures r == 0 <== forall i :: 0 <= i < |es| ==> !Crosses(es[i], q)
    ensures r == |es| <== forall i :: 0 <= i < |es| ==> Crosses(es[i], q)
  {
    if es == [] then 0
    else Crossings(es[..|es| - 1], q) + (if Crosses(es[|es| - 1], q) then 1 else 0)
  }

  /** `isPointInside`: false for fewer than three vertices; otherwise the
      even-odd rule applied to the point projected onto the face plane. */
  predicate Inside(vs: seq<Vec3D>, es: seq<Edge>, n: Vec3D, p: Vec3D) {
    |vs| >= 3 && Crossings(es, Project(p, vs[0], n)) % 2 == 1
  }

  /** A ratio of two numbers of the same sign, the numerator no larger in
      magnitude, lies in the unit interval. */
  lemma RatioInUnitInterval(num: real, den: real)
    requires (0.0 <= num <= den && den > 0.0) || (den <= num <= 0.0 && den < 0.0)
    ensures 0.0 <= num / den <= 1.0
  {
    var t := num / den;
    assert t * den == num;
    if den > 0.0 {
      if t < 0.0 {
        MulPositive(-t, den, -num);
      }
      if t > 1.0 {
        MulPositive(t - 1.0, den, num - den);
      }
    } else {
      if t < 0.0 {
        MulPositive(-t, -den, num);
      }
      if t > 1.0 {
        MulPositive(t - 1.0, -den, den - num);
      }
    }
  }

  /** `a * b / c` is `a` times the ratio `b / c`. */
  lemma MulDiv(a: real, b: real, c: real)
    requires c != 0.0
    ensures a * b / c == a * (b / c)
  {
  }

  /** A fraction `t` of `d`, with `t` in the unit interval, lies between
      zero and `d`. */
  lemma FractionBetween(d: real, t: real, u: real)
    requires u == d * t && 0.0 <= t <= 1.0
    ensures Min(0.0, d) <= u <= Max(0.0, d)
  {
    if d > 0.0 {
      if t > 0.0 { MulPositive(d, t, u); }
      if t < 1.0 { MulPositive(d, 1.0 - t, d - u); }
    } else if d < 0.0 {
      if t > 0.0 { MulPositive(-d, t, -u); }
      if t < 1.0 { MulPositive(-d, 1.0 - t, u - d); }
    }
  }

  /** The crossing lies on the edge: between the x coordinates of its two
      endpoints. */
  lemma CrossingXOnEdge(e: Edge, py: real)
    requires Straddles(e, py)
    ensures Min(e.start.x, e.end.x) <= CrossingX(e, py) <= Max(e.start.x, e.end.x)
  {
    var dx := e.end.x - e.start.x;
    var num := py - e.start.y;
    var den := e.end.y - e.start.y;
    RatioInUnitInterval(num, den);
    MulDiv(dx, num, den);
    var u := dx * (num / den);
    FractionBetween(dx, num / den, u);
    assert CrossingX(e, py) == u + e.start.x;
  }

  /** Reversing an edge changes neither whether the ray crosses it nor
      where. */
  lemma CrossesReversed(e: Edge, q: Vec3D)
    ensures Straddles(Edge(e.end, e.start), q.y) == Straddles(e, q.y)
    ensures Straddles(e, q.y) ==> CrossingX(Edge(e.end, e.start), q.y) == CrossingX(e, q.y)
    ensures Crosses(Edge(e.end, e.start), q) == Crosses(e, q)
  {
    if Straddles(e, q.y) {
      var a := e.start;
      var b := e.end;
      var den := b.y - a.y;
      assert CrossingX(e, q.y) * den == (b.x - a.x) * (q.y - a.y) + a.x * den;
      assert CrossingX(Edge(b, a), q.y) * den == (b.x - a.x) * (q.y - a.y) + a.x * den;
    }
  }

  /** A point beyond the whole y-range of the edges, or to the right of
      every edge, is outside. */
  lemma OutsideBeyondEdges(vs: seq<Vec3D>, es: seq<Edge>, n: Vec3D, p: Vec3D)
    requires |vs| > 0
    requires
      var q := Project(p, vs[0], n);
      (forall i :: 0 <= i < |es| ==> es[i].start.y <= q.y && es[i].end.y <= q.y) ||
      (forall i :: 0 <= i < |es| ==> es[i].start.y > q.y && es[i].end.y > q.y) ||
      (forall i :: 0 <= i < |es| ==> es[i].start.x <= q.x && es[i].end.x <= q.x)
    ensures !Inside(vs, es, n, p)
  {
    var q := Project(p, vs[0], n);
    forall i | 0 <= i < |es|
      ensures !Crosses(es[i], q)
    {
      if Straddles(es[i], q.y) {
        CrossingXOnEdge(es[i], q.y);
      }
    }
  }

  // ---------------------------------------------------------------------
  // The crossings of a closed ring

  /** The edge rises through height `h`: it starts at or below it and ends
      above it. */
  predicate Rises(e: Edge, h: real) {
    !(e.start.y > h) && e.end.y > h
  }

  /** The edge falls through height `h`. */
  predicate Falls(e: Edge, h: real) {
    e.start.y > h && !(e.end.y > h)
  }

  /** The number of edges rising through `h`. */
  function CountRising(es: seq<Edge>, h: real): (r: nat)
    ensures r <= |es|
  {
    if es == [] then 0
    else CountRising(es[..|es| - 1], h) + (if Rises(es[|es| - 1], h) then 1 else 0)
  }

  /** The number of edges falling through `h`; no edge both rises and
      falls. */
  function CountFalling(es: seq<Edge>, h: real): (r: nat)
    ensures r + CountRising(es, h) <= |es|
  {
    if es == [] then 0
    else CountFalling(es[..|es| - 1], h) + (if Falls(es[|es| - 1], h) then 1 else 0)
  }

  /** 1 for a vertex above `h`, 0 otherwise. */
  function Above(v: Vec3D, h: real): int {
    if v.y > h then 1 else 0
  }

  /** Every edge but the last ends where the next one starts. */
  predicate Chain(es: seq<Edge>) {
    forall i :: 0 <= i < |es| - 1 ==> es[i].end == es[i + 1].start
  }

  /** Along a chain, rising and falling through `h` differ by how the last
      vertex and the first one lie relative to `h`. */
  lemma {:induction false} ChainBalance(es: seq<Edge>, h: real)
    requires |es| > 0 && Chain(es)
    ensures CountRising(es, h) - CountFalling(es, h) == Above(es[|es| - 1].end, h) - Above(es[0].start, h)
  {
    var init := es[..|es| - 1];
    if init == [] {
      assert CountRising(init, h) == 0 && CountFalling(init, h) == 0;
    } else {
      assert Chain(init) by {
        forall i | 0 <= i < |init| - 1
          ensures init[i].end == init[i + 1].start
        {
          assert init[i] == es[i] && init[i + 1] == es[i + 1];
        }
      }
      ChainBalance(init, h);
      assert init[|init| - 1].end == es[|es| - 1].start by {
        assert init[|init| - 1] == es[|es| - 2];
      }
      assert init[0] == es[0];
    }
  }

  /** Around a closed ring every rise through a height is matched by a
      fall, so the ring straddles every height an even number of times. */
  lemma RingBalanced(vs: seq<Vec3D>, es: seq<Edge>, h: real)
    requires EdgeRing(vs, es)
    ensures CountRising(es, h) == CountFalling(es, h)
  {
    if |es| > 0 {
      assert Chain(es) by {
        forall i | 0 <= i < |es| - 1
          ensures es[i].end == es[i + 1].start
        {
          assert (i + 1) % |vs| == i + 1;
          assert es[i] == Edge(vs[i], vs[i + 1]);
        }
      }
      ChainBalance(es, h);
      EdgeRingCloses(vs, es);
    }
  }

  /** When each edge is crossed exactly when it rises (if `up`) or falls
      (if `down`) through the ray's height, the crossings are those counts. */
  lemma {:induction false} CrossingsBySide(es: seq<Edge>, q: Vec3D, up: bool, down: bool)
    requires forall i :: 0 <= i < |es| ==>
      (Crosses(es[i], q) <==> (up && Rises(es[i], q.y)) || (down && Falls(es[i], q.y)))
    ensures Crossings(es, q) ==
      (if up then CountRising(es, q.y) else 0) + (if down then CountFalling(es, q.y) else 0)
  {
    if es != [] {
      var init := es[..|es| - 1];
      assert forall i :: 0 <= i < |init| ==> init[i] == es[i];
      CrossingsBySide(init, q, up, down);
    }
  }

  /** The ray from a point to the left of both ends of an edge crosses it
      exactly when the edge straddles the ray's height. */
  lemma LeftOfEdge(e: Edge, q: Vec3D)
    requires q.x < e.start.x && q.x < e.end.x
    ensures Crosses(e, q) <==> Rises(e, q.y) || Falls(e, q.y)
  {
    if Straddles(e, q.y) {
      CrossingXOnEdge(e, q.y);
    }
  }

  /** A closed ring all of whose straddling edges are crossed is crossed an
      even number of times. */
  lemma RingCrossingsEven(vs: seq<Vec3D>, es: seq<Edge>, q: Vec3D)
    requires EdgeRing(vs, es)
    requires forall i :: 0 <= i < |es| ==> (Crosses(es[i], q) <==> Rises(es[i], q.y) || Falls(es[i], q.y))
    ensures Crossings(es, q) % 2 == 0
  {
    CrossingsBySide(es, q, true, true);
    RingBalanced(vs, es, q.y);
  }

  /** A point left of every vertex crosses exactly the straddling edges. */
  lemma LeftOfRing(vs: seq<Vec3D>, es: seq<Edge>, q: Vec3D)
    requires |vs| > 0 && EdgeRing(vs, es)
    requires forall k :: 0 <= k < |vs| ==> q.x < vs[k].x
    ensures forall i :: 0 <= i < |es| ==> (Crosses(es[i], q) <==> Rises(es[i], q.y) || Falls(es[i], q.y))
  {
    forall i | 0 <= i < |es|
      ensures Crosses(es[i], q) <==> Rises(es[i], q.y) || Falls(es[i], q.y)
    {
      var j := (i + 1) % |vs|;
      assert es[i] == Edge(vs[i], vs[j]);
      LeftOfEdge(es[i], q);
    }
  }

  /** A point whose projection lies to the left of every vertex is outside:
      every edge straddling its height is crossed, and a closed ring
      straddles it an even number of times. */
  lemma OutsideLeftOfRing(vs: seq<Vec3D>, es: seq<Edge>, n: Vec3D, p: Vec3D)
    requires |vs| > 0 && EdgeRing(vs, es)
    requires forall k :: 0 <= k < |vs| ==> Project(p, vs[0], n).x < vs[k].x
    ensures !Inside(vs, es, n, p)
  {
    var q := Project(p, vs[0], n);
    LeftOfRing(vs, es, q);
    RingCrossingsEven(vs, es, q);
  }

  /** The centroid of three named corners. `Center` is the same mean over a
      vertex sequence (`CentreInPlane`); the lemmas about the crossing count
      work on named corners, without sequence indexing, so they use this. */
  function Centroid(a: Vec3D, b: Vec3D, c: Vec3D): Vec3D {
    Vec3D((a.x + b.x + c.x) / 3.0, (a.y + b.y + c.y) / 3.0, (a.z + b.z + c.z) / 3.0)
  }

  /** Twice the signed area of `p`, `r`, `q` seen from above: positive when
      `q` lies to the left of the direction from `p` to `r`. */
  function Orient(p: Vec3D, r: Vec3D, q: Vec3D): real {
    (r.x - p.x) * (q.y - p.y) - (r.y - p.y) * (q.x - p.x)
  }

  /** Seen from above, the centroid lies on the same side of each edge of
      the triangle, at a third of the triangle's signed area. */
  lemma CentroidOrient(a: Vec3D, b: Vec3D, c: Vec3D)
    ensures 3.0 * Orient(a, b, Centroid(a, b, c)) == Orient(a, b, c)
    ensures 3.0 * Orient(b, c, Centroid(a, b, c)) == Orient(a, b, c)
    ensures 3.0 * Orient(c, a, Centroid(a, b, c)) == Orient(a, b, c)
  {
  }

  /** The sign of a product with a non-zero factor `b`. */
  lemma ProductSign(a: real, b: real, t: real)
    requires t == a * b && b != 0.0
    ensures b > 0.0 ==> (a > 0.0 <==> t > 0.0)
    ensures b < 0.0 ==> (a > 0.0 <==> t < 0.0)
  {
    if a > 0.0 && b > 0.0 {
      MulPositive(a, b, t);
    } else if a > 0.0 {
      MulPositive(a, -b, -t);
    } else if a < 0.0 && b > 0.0 {
      MulPositive(-a, b, -t);
    } else if a < 0.0 {
      MulPositive(-a, -b, t);
    }
  }

  /** A straddling edge is crossed exactly when the point lies to the left
      of it going up, or to its right going down. */
  lemma CrossesBySide(e: Edge, q: Vec3D)
    requires Straddles(e, q.y)
    ensures Crosses(e, q) <==>
      (Rises(e, q.y) && Orient(e.start, e.end, q) > 0.0) ||
      (Falls(e, q.y) && Orient(e.start, e.end, q) < 0.0)
  {
    var d := e.end.y - e.start.y;
    var t := (e.end.x - e.start.x) * (q.y - e.start.y);
    var gap := CrossingX(e, q.y) - q.x;
    assert gap == t / d + e.start.x - q.x;
    assert gap * d == t + (e.start.x - q.x) * d;
    assert gap * d == Orient(e.start, e.end, q);
    ProductSign(gap, d, Orient(e.start, e.end, q));
  }

  /** The three y coordinates of a triangle with non-zero signed area are
      not all on one side of their mean. */
  lemma NotLevel(a: Vec3D, b: Vec3D, c: Vec3D)
    requires Orient(a, b, c) != 0.0
    ensures var h := Centroid(a, b, c).y;
      !(a.y > h && b.y > h && c.y > h) && !(a.y <= h && b.y <= h && c.y <= h)
  {
  }

  /** The ray from the centroid of a triangle that is not seen edge-on from
      above crosses exactly one of its edges. */
  lemma CentroidCrossesOnce(a: Vec3D, b: Vec3D, c: Vec3D)
    requires Orient(a, b, c) != 0.0
    ensures Crossings([Edge(a, b), Edge(b, c), Edge(c, a)], Centroid(a, b, c)) == 1
  {
    var g := Centroid(a, b, c);
    var e0, e1, e2 := Edge(a, b), Edge(b, c), Edge(c, a);
    CentroidOrient(a, b, c);
    NotLevel(a, b, c);
    if Straddles(e0, g.y) { CrossesBySide(e0, g); }
    if Straddles(e1, g.y) { CrossesBySide(e1, g); }
    if Straddles(e2, g.y) { CrossesBySide(e2, g); }
    CrossingsOfThree(e0, e1, e2, g);
  }

  /** The ray from the centroid of a triangle seen edge-on from above
      crosses none of its edges: the centroid lies on the line of every
      edge, seen from above. */
  lemma CentroidCrossesNone(a: Vec3D, b: Vec3D, c: Vec3D)
    requires Orient(a, b, c) == 0.0
    ensures Crossings([Edge(a, b), Edge(b, c), Edge(c, a)], Centroid(a, b, c)) == 0
  {
    var g := Centroid(a, b, c);
    var e0, e1, e2 := Edge(a, b), Edge(b, c), Edge(c, a);
    CentroidOrient(a, b, c);
    if Straddles(e0, g.y) { CrossesBySide(e0, g); }
    if Straddles(e1, g.y) { CrossesBySide(e1, g); }
    if Straddles(e2, g.y) { CrossesBySide(e2, g); }
    CrossingsOfThree(e0, e1, e2, g);
  }

  /** The centre of a triangle lies in its own plane, so projecting it
      along the face normal leaves it where it is. */
  lemma CentreInPlane(vs: seq<Vec3D>, sqrt: real -> real)
    requires |vs| == 3
    ensures Center(vs) == Centroid(vs[0], vs[1], vs[2])
    ensures Project(Center(vs), vs[0], FaceNormal(vs, sqrt)) == Center(vs)
  {
    var a, b, c := vs[0], vs[1], vs[2];
    var n := FaceNormal(vs, sqrt);
    var g := Centroid(a, b, c);
    assert Center(vs) == g;
    NormalOrthogonal(vs, sqrt);
    assert 3.0 * Dot(Sub(g, a), n) == Dot(n, Sub(b, a)) + Dot(n, Sub(c, a));
  }

  /** `isPointInside` holds for the centre of every triangle that is not
      seen edge-on from above (the z component of its cross product, and so
      of its normal, is not zero). For a triangle seen edge-on the centre
      is outside (`TriangleEdgeOnCentreOutside`). */
  lemma TriangleCentreInside(vs: seq<Vec3D>, es: seq<Edge>, sqrt: real -> real)
    requires |vs| == 3 && EdgeRing(vs, es)
    requires CrossNormal(vs).z != 0.0
    ensures Inside(vs, es, FaceNormal(vs, sqrt), Center(vs))
  {
    var a, b, c := vs[0], vs[1], vs[2];
    CentreInPlane(vs, sqrt);
    assert Orient(a, b, c) == CrossNormal(vs).z;
    RingOfThree(vs, es);
    CentroidCrossesOnce(a, b, c);
    InsideByCount(vs, es, FaceNormal(vs, sqrt), Center(vs));
  }

  /** `isPointInside` reports the centre of a triangle seen edge-on from
      above (the z component of its cross product is zero) outside, level
      or not. */
  lemma TriangleEdgeOnCentreOutside(vs: seq<Vec3D>, es: seq<Edge>, sqrt: real -> real)
    requires |vs| == 3 && EdgeRing(vs, es)
    requires CrossNormal(vs).z == 0.0
    ensures !Inside(vs, es, FaceNormal(vs, sqrt), Center(vs))
  {
    var a, b, c := vs[0], vs[1], vs[2];
    CentreInPlane(vs, sqrt);
    assert Orient(a, b, c) == CrossNormal(vs).z;
    RingOfThree(vs, es);
    CentroidCrossesNone(a, b, c);
  }

  /** So a triangle holds its own centre exactly when it is not seen
      edge-on from above. */
  lemma TriangleCentreInsideIff(vs: seq<Vec3D>, es: seq<Edge>, sqrt: real -> real)
    requires |vs| == 3 && EdgeRing(vs, es)
    ensures Inside(vs, es, FaceNormal(vs, sqrt), Center(vs)) <==> CrossNormal(vs).z != 0.0
  {
    if CrossNormal(vs).z != 0.0 {
      TriangleCentreInside(vs, es, sqrt);
    } else {
      TriangleEdgeOnCentreOutside(vs, es, sqrt);
    }
  }

  /** The edge ring of three corners, written out. */
  lemma RingOfThree(vs: seq<Vec3D>, es: seq<Edge>)
    requires |vs| == 3 && EdgeRing(vs, es)
    ensures es == [Edge(vs[0], vs[1]), Edge(vs[1], vs[2]), Edge(vs[2], vs[0])]
  {
    assert es[2] == Edge(vs[2], vs[(2 + 1) % 3]);
  }

  /** A point that the projection leaves in place and whose ray crosses one
      edge is inside. */
  lemma InsideByCount(vs: seq<Vec3D>, es: seq<Edge>, n: Vec3D, p: Vec3D)
    requires |vs| >= 3 && Project(p, vs[0], n) == p && Crossings(es, p) == 1
    ensures Inside(vs, es, n, p)
  {
  }

  /** The mean of four named corners, `Center` of a quadrilateral
      (`QuadCentreInPlane`), for the same reason as `Centroid`. */
  function Centroid4(a: Vec3D, b: Vec3D, c: Vec3D, d: Vec3D): Vec3D {
    Vec3D((a.x + b.x + c.x + d.x) / 4.0, (a.y + b.y + c.y + d.y) / 4.0, (a.z + b.z + c.z + d.z) / 4.0)
  }

  /** Seen from `q`, the sides of `a`, `b`, `c`, `d` all turn the same way
      round it. */
  predicate SameTurns(a: Vec3D, b: Vec3D, c: Vec3D, d: Vec3D, q: Vec3D) {
    (Orient(a, b, q) > 0.0 && Orient(b, c, q) > 0.0 && Orient(c, d, q) > 0.0 && Orient(d, a, q) > 0.0) ||
    (Orient(a, b, q) < 0.0 && Orient(b, c, q) < 0.0 && Orient(c, d, q) < 0.0 && Orient(d, a, q) < 0.0)
  }

  /** Reversing the direction of a side reverses its orientation. */
  lemma OrientSwap(a: Vec3D, c: Vec3D, q: Vec3D)
    ensures Orient(c, a, q) == -Orient(a, c, q)
  {
  }

  /** The three turns about `q` of a triangle, weighted by the heights of
      the opposite corners above `q`, cancel out. */
  lemma TurnsBalance(a: Vec3D, b: Vec3D, c: Vec3D, q: Vec3D)
    ensures Orient(a, b, q) * (c.y - q.y) + Orient(b, c, q) * (a.y - q.y) + Orient(c, a, q) * (b.y - q.y) == 0.0
  {
  }

  /** Turning one way about `q` from a corner above its height, through one
      at or below it, to another above it goes past the first corner's
      direction: the side back from `c` to `a` turns the same way. */
  lemma Wraps(a: Vec3D, b: Vec3D, c: Vec3D, q: Vec3D)
    requires a.y > q.y && b.y <= q.y && c.y > q.y
    requires (Orient(a, b, q) > 0.0 && Orient(b, c, q) > 0.0) || (Orient(a, b, q) < 0.0 && Orient(b, c, q) < 0.0)
    ensures Orient(a, b, q) > 0.0 ==> Orient(c, a, q) > 0.0
    ensures Orient(a, b, q) < 0.0 ==> Orient(c, a, q) < 0.0
  {
    TurnsBalance(a, b, c, q);
    WrapSigns(Orient(a, b, q), Orient(b, c, q), Orient(c, a, q), a.y - q.y, b.y - q.y, c.y - q.y);
  }

  /** The sign reasoning behind `Wraps`, on the turns and heights alone. */
  lemma WrapSigns(o1: real, o2: real, o3: real, ha: real, hb: real, hc: real)
    requires o1 * hc + o2 * ha + o3 * hb == 0.0
    requires ha > 0.0 && hb <= 0.0 && hc > 0.0
    requires (o1 > 0.0 && o2 > 0.0) || (o1 < 0.0 && o2 < 0.0)
    ensures o1 > 0.0 ==> o3 > 0.0
    ensures o1 < 0.0 ==> o3 < 0.0
  {
    ProductSign(o1, hc, o1 * hc);
    ProductSign(o2, ha, o2 * ha);
    if hb < 0.0 {
      ProductSign(o3, hb, o3 * hb);
    }
  }

  /** An edge whose orientation about `q` has the given sense is crossed
      exactly when it rises (positive) or falls (negative) past `q`. */
  lemma EdgeBySense(e: Edge, q: Vec3D, up: bool)
    requires if up then Orient(e.start, e.end, q) > 0.0 else Orient(e.start, e.end, q) < 0.0
    ensures Crosses(e, q) <==> if up then Rises(e, q.y) else Falls(e, q.y)
  {
    if Straddles(e, q.y) {
      CrossesBySide(e, q);
    }
  }

  /** A side at the height of `q` has no orientation about it. */
  lemma LevelOrient(a: Vec3D, b: Vec3D, q: Vec3D)
    requires a.y == q.y && b.y == q.y
    ensures Orient(a, b, q) == 0.0
  {
  }

  /** The crossing count of four edges, one term per edge. */
  lemma CrossingsOfFour(e0: Edge, e1: Edge, e2: Edge, e3: Edge, q: Vec3D)
    ensures Crossings([e0, e1, e2, e3], q) ==
      (if Crosses(e0, q) then 1 else 0) + (if Crosses(e1, q) then 1 else 0) +
      (if Crosses(e2, q) then 1 else 0) + (if Crosses(e3, q) then 1 else 0)
  {
    assert [e0, e1, e2, e3][..3] == [e0, e1, e2];
    CrossingsOfThree(e0, e1, e2, q);
  }

  /** The ray from the mean of four corners that all turn one way about it
      crosses exactly one side: the corners cannot all lie on one side of
      their mean height, and they cannot alternate above and below it,
      since that would take them twice round the mean. */
  lemma QuadCrossesOnce(a: Vec3D, b: Vec3D, c: Vec3D, d: Vec3D)
    requires SameTurns(a, b, c, d, Centroid4(a, b, c, d))
    ensures Crossings([Edge(a, b), Edge(b, c), Edge(c, d), Edge(d, a)], Centroid4(a, b, c, d)) == 1
  {
    var g := Centroid4(a, b, c, d);
    var up := Orient(a, b, g) > 0.0;
    EdgeBySense(Edge(a, b), g, up);
    EdgeBySense(Edge(b, c), g, up);
    EdgeBySense(Edge(c, d), g, up);
    EdgeBySense(Edge(d, a), g, up);
    if a.y <= g.y && b.y <= g.y && c.y <= g.y && d.y <= g.y {
      LevelOrient(a, b, g);
    }
    if a.y > g.y && b.y <= g.y && c.y > g.y && d.y <= g.y {
      OrientSwap(a, c, g);
      Wraps(a, b, c, g);
      Wraps(c, d, a, g);
    }
    if a.y <= g.y && b.y > g.y && c.y <= g.y && d.y > g.y {
      OrientSwap(b, d, g);
      Wraps(b, c, d, g);
      Wraps(d, a, b, g);
    }
    CrossingsOfFour(Edge(a, b), Edge(b, c), Edge(c, d), Edge(d, a), g);
  }

  /** The centre of a quadrilateral whose fourth corner lies in the plane
      of the first three is a fixed point of the projection. */
  lemma QuadCentreInPlane(vs: seq<Vec3D>, sqrt: real -> real)
    requires |vs| == 4 && Dot(Sub(vs[3], vs[0]), CrossNormal(vs)) == 0.0
    ensures Center(vs) == Centroid4(vs[0], vs[1], vs[2], vs[3])
    ensures Project(Center(vs), vs[0], FaceNormal(vs, sqrt)) == Center(vs)
  {
    var a, b, c, d := vs[0], vs[1], vs[2], vs[3];
    var n := FaceNormal(vs, sqrt);
    var g := Centroid4(a, b, c, d);
    assert Center(vs) == g;
    NormalOrthogonal(vs, sqrt);
    NormalPositiveMultiple(vs, sqrt);
    var k :| k > 0.0 && Scale(n, k) == CrossNormal(vs);
    ScaledOrthogonal(Sub(d, a), n, k, CrossNormal(vs));
    MeanOffset(a, b, c, d, n);
  }

  /** The offset of the mean of four corners from the first one, measured
      along `n`, is a quarter of the other corners' offsets. */
  lemma MeanOffset(a: Vec3D, b: Vec3D, c: Vec3D, d: Vec3D, n: Vec3D)
    ensures 4.0 * Dot(Sub(Centroid4(a, b, c, d), a), n) == Dot(n, Sub(b, a)) + Dot(n, Sub(c, a)) + Dot(Sub(d, a), n)
  {
  }

  /** A vector orthogonal to a positive multiple of `n` is orthogonal to `n`. */
  lemma ScaledOrthogonal(u: Vec3D, n: Vec3D, k: real, m: Vec3D)
    requires k > 0.0 && Scale(n, k) == m && Dot(u, m) == 0.0
    ensures Dot(u, n) == 0.0
  {
    var t := Dot(u, n);
    assert k * t == Dot(u, m);
    ProductSign(t, k, k * t);
    ProductSign(-t, k, -(k * t));
  }

  /** `isPointInside` holds for the centre of a planar quadrilateral whose
      corners, seen from above, all turn one way about the centre. A convex
      face that is not seen edge-on from above has such corners once they
      are in angle order; a level face (all corners at one height y) has
      none, and `LevelCentreOutside` shows its centre is reported
      outside. */
  lemma QuadCentreInside(vs: seq<Vec3D>, es: seq<Edge>, sqrt: real -> real)
    requires |vs| == 4 && EdgeRing(vs, es)
    requires Dot(Sub(vs[3], vs[0]), CrossNormal(vs)) == 0.0
    requires SameTurns(vs[0], vs[1], vs[2], vs[3], Center(vs))
    ensures Inside(vs, es, FaceNormal(vs, sqrt), Center(vs))
  {
    var a, b, c, d := vs[0], vs[1], vs[2], vs[3];
    QuadCentreInPlane(vs, sqrt);
    RingOfFour(vs, es);
    QuadCrossesOnce(a, b, c, d);
    InsideByCount(vs, es, FaceNormal(vs, sqrt), Center(vs));
  }

  /** The edge ring of four corners, written out. */
  lemma RingOfFour(vs: seq<Vec3D>, es: seq<Edge>)
    requires |vs| == 4 && EdgeRing(vs, es)
    ensures es == [Edge(vs[0], vs[1]), Edge(vs[1], vs[2]), Edge(vs[2], vs[3]), Edge(vs[3], vs[0])]
  {
    assert es[3] == Edge(vs[3], vs[(3 + 1) % 4]);
  }

  /** The ray from (1/4, 1/4) crosses the hypotenuse of the unit right
      triangle and neither leg. */
  lemma TriangleCrosses(a: Vec3D, b: Vec3D, c: Vec3D, q: Vec3D)
    requires a == Vec3D(0.0, 0.0, 0.0) && b == Vec3D(1.0, 0.0, 0.0) && c == Vec3D(0.0, 1.0, 0.0)
    requires q.y == 0.25 && q.x == 0.25
    ensures !Crosses(Edge(a, b), q) && Crosses(Edge(b, c), q) && !Crosses(Edge(c, a), q)
  {
    assert CrossingX(Edge(b, c), q.y) == 0.75;
    assert CrossingX(Edge(c, a), q.y) == 0.0;
  }

  /** Projecting onto the plane z = 0 drops the height. */
  lemma ProjectOntoGround(p: Vec3D, a: Vec3D, n: Vec3D)
    requires a == Vec3D(0.0, 0.0, 0.0) && n == Vec3D(0.0, 0.0, 1.0)
    ensures Project(p, a, n) == Vec3D(p.x, p.y, 0.0)
  {
    assert Dot(Sub(p, a), n) == p.z;
  }

  /** A ray above the unit right triangle crosses none of its edges. */
  lemma NoStraddleAbove(a: Vec3D, b: Vec3D, c: Vec3D, q: Vec3D)
    requires a == Vec3D(0.0, 0.0, 0.0) && b == Vec3D(1.0, 0.0, 0.0) && c == Vec3D(0.0, 1.0, 0.0)
    requires q.y > 1.0
    ensures !Crosses(Edge(a, b), q) && !Crosses(Edge(b, c), q) && !Crosses(Edge(c, a), q)
  {
  }

  /** Counting over three edges, one by one. */
  lemma CrossingsOfThree(e0: Edge, e1: Edge, e2: Edge, q: Vec3D)
    ensures Crossings([e0, e1, e2], q) ==
      (if Crosses(e0, q) then 1 else 0) + (if Crosses(e1, q) then 1 else 0) +
      (if Crosses(e2, q) then 1 else 0)
  {
    assert [e0, e1, e2][..2] == [e0, e1];
    assert [e0, e1][..1] == [e0];
    assert [e0][..0] == [];
  }

  /** The unit right triangle in the plane z = 0, with its edges in order
      and the upward unit normal. */
  predicate UnitTriangle(vs: seq<Vec3D>, es: seq<Edge>, n: Vec3D) {
    vs == [Vec3D(0.0, 0.0, 0.0), Vec3D(1.0, 0.0, 0.0), Vec3D(0.0, 1.0, 0.0)] &&
    es == [Edge(vs[0], vs[1]), Edge(vs[1], vs[2]), Edge(vs[2], vs[0])] &&
    n == Vec3D(0.0, 0.0, 1.0)
  }

  /** A genuine square root of 1 is 1. */
  lemma RootOfOne(r: real)
    requires IsSquareRoot(r, 1.0)
    ensures r == 1.0
  {
    if r > 1.0 {
      MulPositive(r - 1.0, r + 1.0, r * r - 1.0);
    } else if r < 1.0 {
      MulPositive(1.0 - r, r + 1.0, 1.0 - r * r);
    }
  }

  /** A face whose cross product is already of unit length keeps it as its
      normal. */
  lemma UnitCrossNormal(vs: seq<Vec3D>, sqrt: real -> real)
    requires |vs| >= 3 && CrossNormal(vs) == Vec3D(0.0, 0.0, 1.0)
    requires sqrt(1.0) == 1.0
    ensures FaceNormal(vs, sqrt) == Vec3D(0.0, 0.0, 1.0)
  {
    var c := CrossNormal(vs);
    assert NormSquared(c) == 1.0;
    assert FaceNormal(vs, sqrt) == Div(c, 1.0);
  }

  /** A level face, whose corners all lie at the height `p.y`, reports `p`
      outside: its normal has no x or
      z component, so the projection keeps `p.y`, and no edge straddles
      that height. */
  lemma LevelFaceOutside(vs: seq<Vec3D>, es: seq<Edge>, sqrt: real -> real, p: Vec3D)
    requires |vs| >= 3 && EdgeRing(vs, es)
    requires forall i :: 0 <= i < |vs| ==> vs[i].y == p.y
    ensures !Inside(vs, es, FaceNormal(vs, sqrt), p)
  {
    var n := FaceNormal(vs, sqrt);
    var c := CrossNormal(vs);
    assert vs[1].y == p.y && vs[2].y == p.y && vs[0].y == p.y;
    assert c.x == 0.0 && c.z == 0.0;
    assert n.x == 0.0 && n.z == 0.0;
    assert Dot(Sub(p, vs[0]), n) == 0.0;
    var q := Project(p, vs[0], n);
    assert q.y == p.y;
    forall i | 0 <= i < |es|
      ensures es[i].start.y <= q.y && es[i].end.y <= q.y
    {
      assert es[i] == Edge(vs[i], vs[(i + 1) % |vs|]);
    }
    OutsideBeyondEdges(vs, es, n, p);
  }

  /** So the centre of a level triangle or quadrilateral (all corners at
      one height y), convex or not, is reported outside. */
  lemma LevelCentreOutside(vs: seq<Vec3D>, es: seq<Edge>, sqrt: real -> real)
    requires (|vs| == 3 || |vs| == 4) && EdgeRing(vs, es)
    requires forall i :: 0 <= i < |vs| ==> vs[i].y == vs[0].y
    ensures !Inside(vs, es, FaceNormal(vs, sqrt), Center(vs))
  {
    var g := Center(vs);
    if |vs| == 3 {
      assert Scale(g, 3.0).y == vs[0].y + vs[1].y + vs[2].y;
    } else {
      assert Scale(g, 4.0).y == vs[0].y + vs[1].y + vs[2].y + vs[3].y;
    }
    assert g.y == vs[0].y;
    LevelFaceOutside(vs, es, sqrt, g);
  }

  /** The first two sides of the unit right triangle are the x and y axes. */
  lemma UnitTriangleCross(vs: seq<Vec3D>)
    requires |vs| == 3
    requires vs[0] == Vec3D(0.0, 0.0, 0.0) && vs[1] == Vec3D(1.0, 0.0, 0.0) && vs[2] == Vec3D(0.0, 1.0, 0.0)
    ensures CrossNormal(vs) == Vec3D(0.0, 0.0, 1.0)
  {
    assert Sub(vs[1], vs[0]) == Vec3D(1.0, 0.0, 0.0);
    assert Sub(vs[2], vs[0]) == Vec3D(0.0, 1.0, 0.0);
  }

  /** The normal `UnitTriangle` names is the one `calculateNormal` derives
      for its corners, given a genuine square root of 1. */
  lemma UnitTriangleNormal(vs: seq<Vec3D>, sqrt: real -> real)
    requires vs == [Vec3D(0.0, 0.0, 0.0), Vec3D(1.0, 0.0, 0.0), Vec3D(0.0, 1.0, 0.0)]
    requires IsSquareRoot(sqrt(1.0), 1.0)
    ensures FaceNormal(vs, sqrt) == Vec3D(0.0, 0.0, 1.0)
  {
    RootOfOne(sqrt(1.0));
    UnitTriangleCross(vs);
    UnitCrossNormal(vs, sqrt);
  }

  /** The unit right triangle holds (1/4, 1/4) whatever its height above the
      plane. */
  lemma TriangleHolds(vs: seq<Vec3D>, es: seq<Edge>, n: Vec3D, p: Vec3D)
    requires UnitTriangle(vs, es, n)
    requires p.x == 0.25 && p.y == 0.25
    ensures Inside(vs, es, n, p)
  {
    var q := Project(p, vs[0], n);
    ProjectOntoGround(p, vs[0], n);
    TriangleCrosses(vs[0], vs[1], vs[2], q);
    CrossingsOfThree(es[0], es[1], es[2], q);
    assert es == [es[0], es[1], es[2]];
  }

  /** Nor does it hold any point beyond its top corner. */
  lemma TriangleMisses(vs: seq<Vec3D>, es: seq<Edge>, n: Vec3D, p: Vec3D)
    requires UnitTriangle(vs, es, n)
    requires p.y > 1.0
    ensures !Inside(vs, es, n, p)
  {
    var q := Project(p, vs[0], n);
    ProjectOntoGround(p, vs[0], n);
    NoStraddleAbove(vs[0], vs[1], vs[2], q);
    CrossingsOfThree(es[0], es[1], es[2], q);
    assert es == [es[0], es[1], es[2]];
  }

  // ---------------------------------------------------------------------
  // Bounding box

  datatype Box = Box(minX: real, maxX: real, minY: real, maxY: real, minZ: real, maxZ: real)

  /** `v` lies in the box. */
  predicate InBox(b: Box, v: Vec3D) {
    b.minX <= v.x <= b.maxX && b.minY <= v.y <= b.maxY && b.minZ <= v.z <= b.maxZ
  }

  /** The box grown to contain `v`. */
  function Extend(b: Box, v: Vec3D): Box {
    Box(Min(b.minX, v.x), Max(b.maxX, v.x), Min(b.minY, v.y), Max(b.maxY, v.y),
        Min(b.minZ, v.z), Max(b.maxZ, v.z))
  }

  /** The box spanned by the first vertex, grown by every vertex in turn. */
  function Bounds(vs: seq<Vec3D>): Box
    requires |vs| > 0
  {
    if |vs| == 1 then
      Box(vs[0].x, vs[0].x, vs[0].y, vs[0].y, vs[0].z, vs[0].z)
    else
      Extend(Bounds(vs[..|vs| - 1]), vs[|vs| - 1])
  }

  /** The bounding box contains every vertex. */
  lemma {:induction false} BoundsContain(vs: seq<Vec3D>)
    requires |vs| > 0
    ensures forall k :: 0 <= k < |vs| ==> InBox(Bounds(vs), vs[k])
    decreases |vs|
  {
    if |vs| > 1 {
      var init := vs[..|vs| - 1];
      BoundsContain(init);
      assert forall k :: 0 <= k < |init| ==> init[k] == vs[k];
    }
  }

  /** Each of the bounding box's six sides is attained by some vertex, so no
      smaller box holds them all. */
  lemma {:induction false} BoundsTight(vs: seq<Vec3D>)
    requires |vs| > 0
    ensures exists k :: 0 <= k < |vs| && vs[k].x == Bounds(vs).minX
    ensures exists k :: 0 <= k < |vs| && vs[k].x == Bounds(vs).maxX
    ensures exists k :: 0 <= k < |vs| && vs[k].y == Bounds(vs).minY
    ensures exists k :: 0 <= k < |vs| && vs[k].y == Bounds(vs).maxY
    ensures exists k :: 0 <= k < |vs| && vs[k].z == Bounds(vs).minZ
    ensures exists k :: 0 <= k < |vs| && vs[k].z == Bounds(vs).maxZ
    decreases |vs|
  {
    if |vs| > 1 {
      var last := |vs| - 1;
      var init := vs[..last];
      BoundsTight(init);
      var b := Bounds(init);
      var k0 :| 0 <= k0 < |init| && init[k0].x == b.minX;
      var k1 :| 0 <= k1 < |init| && init[k1].x == b.maxX;
      var k2 :| 0 <= k2 < |init| && init[k2].y == b.minY;
      var k3 :| 0 <= k3 < |init| && init[k3].y == b.maxY;
      var k4 :| 0 <= k4 < |init| && init[k4].z == b.minZ;
      var k5 :| 0 <= k5 < |init| && init[k5].z == b.maxZ;
      assert vs[k0] == init[k0] && vs[k1] == init[k1] && vs[k2] == init[k2];
      assert vs[k3] == init[k3] && vs[k4] == init[k4] && vs[k5] == init[k5];
      var v := vs[last];
      assert Bounds(vs) == Extend(b, v);
      if v.x < b.minX { assert vs[last].x == Bounds(vs).minX; } else { assert vs[k0].x == Bounds(vs).minX; }
      if b.maxX < v.x { assert vs[last].x == Bounds(vs).maxX; } else { assert vs[k1].x == Bounds(vs).maxX; }
      if v.y < b.minY { assert vs[last].y == Bounds(vs).minY; } else { assert vs[k2].y == Bounds(vs).minY; }
      if b.maxY < v.y { assert vs[last].y == Bounds(vs).maxY; } else { assert vs[k3].y == Bounds(vs).maxY; }
      if v.z < b.minZ { assert vs[last].z == Bounds(vs).minZ; } else { assert vs[k4].z == Bounds(vs).minZ; }
      if b.maxZ < v.z { assert vs[last].z == Bounds(vs).maxZ; } else { assert vs[k5].z == Bounds(vs).maxZ; }
    } else {
      assert vs[0].x == Bounds(vs).minX;
    }
  }

  /** Growing a box by a point it already contains leaves it unchanged. */
  lemma ExtendContained(b: Box, v: Vec3D)
    requires InBox(b, v)
    ensures Extend(b, v) == b
  {
  }
}
