/** The candidate point sets the face's generators walk through: evenly
    spaced samples along each edge, rectangular grids over the bounding box,
    and the filter that keeps the candidates inside the face. */
module Sampling {
  import opened Vec3
  import opened Edges
  import opened FaceGeometry

  // ---------------------------------------------------------------------
  // Samples along the edges

  /** `start + (end - start) * t`, coordinate by coordinate. */
  function Lerp(a: Vec3D, b: Vec3D, t: real): (p: Vec3D)
    ensures t == 0.0 ==> p == a
    ensures t == 1.0 ==> p == b
  {
    Vec3D(a.x + (b.x - a.x) * t, a.y + (b.y - a.y) * t, a.z + (b.z - a.z) * t)
  }

  /** The interpolation parameter `i / (n - 1)`; `n == 1` would divide by
      zero. */
  function Param(i: int, n: int): real
    requires n != 1
  {
    i as real / (n - 1) as real
  }

  /** The parameter runs from 0 at the first sample to 1 at the last,
      staying in the unit interval. */
  lemma ParamRange(i: int, n: int)
    requires n >= 2 && 0 <= i < n
    ensures 0.0 <= Param(i, n) <= 1.0
    ensures i == 0 ==> Param(i, n) == 0.0
    ensures i == n - 1 ==> Param(i, n) == 1.0
  {
    RatioInUnitInterval(i as real, (n - 1) as real);
    if i == n - 1 {
      DivSelf((n - 1) as real);
    }
  }

  /** The first `m` of the `n` samples of edge `e`. */
  function EdgeRun(e: Edge, n: int, m: int): (r: seq<Vec3D>)
    requires n != 1
    ensures |r| == if m > 0 then m else 0
    ensures forall i :: 0 <= i < |r| ==> r[i] == Lerp(e.start, e.end, Param(i, n))
    decreases m
  {
    if m <= 0 then [] else EdgeRun(e, n, m - 1) + [Lerp(e.start, e.end, Param(m - 1, n))]
  }

  /** The samples of every edge in turn, `n` per edge. */
  function EdgeSamples(es: seq<Edge>, n: int): seq<Vec3D>
    requires n != 1
  {
    if es == [] then [] else EdgeSamples(es[..|es| - 1], n) + EdgeRun(es[|es| - 1], n, n)
  }

  /** `n` samples per edge, none when `n` is not positive. */
  lemma {:induction false} EdgeSamplesLength(es: seq<Edge>, n: int)
    requires n != 1
    ensures |EdgeSamples(es, n)| == |es| * (if n > 0 then n else 0)
  {
    if es != [] {
      EdgeSamplesLength(es[..|es| - 1], n);
      var m := if n > 0 then n else 0;
      assert |es| * m == (|es| - 1) * m + m;
    }
  }

  /** Index `k * n + i` splits back into block `k` and offset `i`. */
  lemma DivModOfIndex(k: int, n: int, i: int)
    requires n > 0 && 0 <= i < n
    ensures (k * n + i) / n == k
    ensures (k * n + i) % n == i
  {
    var m := k * n + i;
    var q := m / n;
    var r := m % n;
    assert q * n + r == m;
    assert (q - k) * n == i - r;
    if q - k >= 1 {
      assert false;
    } else if q - k <= -1 {
      assert false;
    }
  }

  /** An index below `last * n` lies in one of the first `last` blocks. */
  lemma BlockBelow(j: int, n: int, last: int)
    requires n > 0 && 0 <= j < last * n
    ensures j / n < last
  {
    var q := j / n;
    assert q * n + j % n == j;
    if q >= last {
      assert false;
    }
  }

  lemma MulNonNegativeInt(a: int, b: int, t: int)
    requires t == a * b && a >= 0 && b >= 0
    ensures t >= 0
  {
  }

  /** Offset `i` of block `k` comes before block `last` when `k < last`. */
  lemma BlockInRange(k: int, n: int, i: int, last: int)
    requires 0 <= k < last && 0 <= i < n
    ensures k * n + i < last * n
  {
    MulNonNegativeInt(last - k - 1, n, (last - k - 1) * n);
    assert last * n == k * n + (last - k - 1) * n + n;
  }

  /** Sample `i` of edge `k` sits at index `k * n + i`. */
  lemma {:induction false} EdgeSampleAt(es: seq<Edge>, n: int, k: int, i: int)
    requires n > 1 && 0 <= k < |es| && 0 <= i < n
    ensures k * n + i < |EdgeSamples(es, n)|
    ensures EdgeSamples(es, n)[k * n + i] == Lerp(es[k].start, es[k].end, Param(i, n))
    decreases |es|
  {
    var last := |es| - 1;
    var init := es[..last];
    var head := EdgeSamples(init, n);
    var run := EdgeRun(es[last], n, n);
    assert EdgeSamples(es, n) == head + run;
    EdgeSamplesLength(es, n);
    EdgeSamplesLength(init, n);
    if k < last {
      BlockInRange(k, n, i, last);
      EdgeSampleAt(init, n, k, i);
      assert init[k] == es[k];
    } else {
      assert EdgeSamples(es, n)[k * n + i] == run[i];
    }
  }

  /** Every sample index `j` is offset `j % n` of block `j / n`. */
  lemma IndexSplits(j: int, n: int, m: int)
    requires n > 0 && 0 <= j < m * n
    ensures 0 <= j / n < m && 0 <= j % n < n
    ensures j == (j / n) * n + j % n
  {
    BlockBelow(j, n, m);
  }

  /** For at least two samples per edge, the first sample of edge `k` is
      its start and the last is its end. */
  lemma EdgeSampleEnds(es: seq<Edge>, n: int, k: int)
    requires n >= 2 && 0 <= k < |es|
    ensures k * n + n - 1 < |EdgeSamples(es, n)|
    ensures EdgeSamples(es, n)[k * n] == es[k].start
    ensures EdgeSamples(es, n)[k * n + n - 1] == es[k].end
  {
    EdgeSampleAt(es, n, k, 0);
    EdgeSampleAt(es, n, k, n - 1);
    ParamRange(0, n);
    ParamRange(n - 1, n);
  }

  /** On an edge ring, the last sample of each edge is the first sample of
      the next one, the last edge's end meeting the first edge's start. */
  lemma RingSamplesMeet(vs: seq<Vec3D>, es: seq<Edge>, n: int, k: int)
    requires n >= 2 && EdgeRing(vs, es) && 0 <= k < |es|
    ensures k * n + n - 1 < |EdgeSamples(es, n)| && ((k + 1) % |es|) * n < |EdgeSamples(es, n)|
    ensures EdgeSamples(es, n)[k * n + n - 1] == EdgeSamples(es, n)[((k + 1) % |es|) * n]
  {
    EdgeSampleEnds(es, n, k);
    EdgeSampleEnds(es, n, (k + 1) % |es|);
    EdgeRingCloses(vs, es);
  }

  // ---------------------------------------------------------------------
  // Grids

  /** The grid point in column `i` and row `j`. */
  function GridPoint(ox: real, sx: real, i: int, oy: real, sy: real, j: int, z: real): Vec3D {
    Vec3D(Line(ox, sx, i), Line(oy, sy, j), z)
  }

  /** Column `i` of the grid, rows `jLo` up to but excluding `jHi`, in
      increasing row order. */
  function Column(ox: real, sx: real, i: int, oy: real, sy: real, jLo: int, jHi: int, z: real): (r: seq<Vec3D>)
    ensures |r| == if jLo <= jHi then jHi - jLo else 0
    ensures forall k :: 0 <= k < |r| ==> r[k] == GridPoint(ox, sx, i, oy, sy, jLo + k, z)
    decreases jHi - jLo
  {
    if jHi <= jLo then [] else Column(ox, sx, i, oy, sy, jLo, jHi - 1, z) + [GridPoint(ox, sx, i, oy, sy, jHi - 1, z)]
  }

  /** Columns `iLo` up to but excluding `iHi`, each column in row order: the
      order of the generators' outer column loop and inner row loop. */
  function Grid(ox: real, sx: real, iLo: int, iHi: int, oy: real, sy: real, jLo: int, jHi: int, z: real): seq<Vec3D>
    decreases iHi - iLo
  {
    if iHi <= iLo then []
    else Grid(ox, sx, iLo, iHi - 1, oy, sy, jLo, jHi, z) + Column(ox, sx, iHi - 1, oy, sy, jLo, jHi, z)
  }

  /** One point per column and row. */
  lemma {:induction false} GridLength(ox: real, sx: real, iLo: int, iHi: int, oy: real, sy: real, jLo: int, jHi: int, z: real)
    ensures |Grid(ox, sx, iLo, iHi, oy, sy, jLo, jHi, z)| ==
      (if iLo <= iHi then iHi - iLo else 0) * (if jLo <= jHi then jHi - jLo else 0)
    decreases iHi - iLo
  {
    if iLo < iHi {
      GridLength(ox, sx, iLo, iHi - 1, oy, sy, jLo, jHi, z);
    }
  }

  /** The grid holds exactly the points of its columns and rows. */
  lemma {:induction false} GridMembers(ox: real, sx: real, iLo: int, iHi: int, oy: real, sy: real, jLo: int, jHi: int, z: real)
    ensures forall i, j :: iLo <= i < iHi && jLo <= j < jHi ==>
      GridPoint(ox, sx, i, oy, sy, j, z) in Grid(ox, sx, iLo, iHi, oy, sy, jLo, jHi, z)
    ensures forall q :: q in Grid(ox, sx, iLo, iHi, oy, sy, jLo, jHi, z) ==>
      exists i, j :: iLo <= i < iHi && jLo <= j < jHi && q == GridPoint(ox, sx, i, oy, sy, j, z)
    decreases iHi - iLo
  {
    if iLo < iHi {
      GridMembers(ox, sx, iLo, iHi - 1, oy, sy, jLo, jHi, z);
      var i := iHi - 1;
      var col := Column(ox, sx, i, oy, sy, jLo, jHi, z);
      forall j | jLo <= j < jHi
        ensures GridPoint(ox, sx, i, oy, sy, j, z) in col
      {
        assert col[j - jLo] == GridPoint(ox, sx, i, oy, sy, j, z);
      }
      forall q | q in col
        ensures exists i, j :: iLo <= i < iHi && jLo <= j < jHi && q == GridPoint(ox, sx, i, oy, sy, j, z)
      {
        var k :| 0 <= k < |col| && col[k] == q;
        assert q == GridPoint(ox, sx, i, oy, sy, jLo + k, z);
      }
    }
  }

  /** `(hi - lo) / (n - 1)`, the spacing that puts `n` grid lines from `lo`
      to `hi`. With `n == 1` the engine divides by zero and zero stands in
      for the result: the interior grid then has no lines, and the
      equal-area generator, whose one line would use it, requires
      `n != 1`. */
  function Spacing(lo: real, hi: real, n: int): real {
    if n == 1 then 0.0 else (hi - lo) / (n - 1) as real
  }

  /** The lines `lo`, `lo + s`, `lo + 2s`, ... that do not pass `hi`. */
  function Steps(lo: real, hi: real, s: real): nat
    requires s > 0.0
  {
    if hi < lo then 0 else ((hi - lo) / s).Floor + 1
  }

  /** The spacing of a positive length over a positive count. */
  lemma QuotientPositive(a: real, b: real)
    requires a > 0.0 && b > 0.0
    ensures a / b > 0.0
  {
    var q := a / b;
    assert q * b == a;
    if q <= 0.0 {
      MulPositive(-q, b, -a);
      assert false;
    }
  }

  /** Line `i` of a grid starting at `lo` with step `s`. */
  function Line(lo: real, s: real, i: int): real {
    lo + i as real * s
  }

  /** One more step of `s` reaches the next line. */
  lemma NextLine(lo: real, s: real, i: int)
    ensures Line(lo, s, i) + s == Line(lo, s, i + 1)
  {
  }

  /** Line `i` of step `s` from `lo` does not pass `hi` exactly when it is
      one of the first `Steps(lo, hi, s)`. */
  lemma StepBound(lo: real, hi: real, s: real, i: nat)
    requires s > 0.0
    ensures Line(lo, s, i) <= hi <==> i < Steps(lo, hi, s)
  {
    var d := hi - lo;
    var q := d / s;
    assert q * s == d;
    var u := i as real * s;
    if i as real <= q {
      if i as real < q {
        MulPositive(q - i as real, s, d - u);
      }
    } else {
      MulPositive(i as real - q, s, u - d);
    }
  }

  // ---------------------------------------------------------------------
  // Filtering by the point-in-face test

  /** The candidates the face's even-odd test accepts, in their original
      order. */
  function KeepInside(vs: seq<Vec3D>, es: seq<Edge>, n: Vec3D, ps: seq<Vec3D>): seq<Vec3D>
  {
    if ps == [] then []
    else KeepInside(vs, es, n, ps[..|ps| - 1]) + (if Inside(vs, es, n, ps[|ps| - 1]) then [ps[|ps| - 1]] else [])
  }

  /** The filter keeps exactly the accepted candidates, each no more often
      than it occurs among the candidates. */
  lemma {:induction false} KeepInsideSound(vs: seq<Vec3D>, es: seq<Edge>, n: Vec3D, ps: seq<Vec3D>)
    ensures |KeepInside(vs, es, n, ps)| <= |ps|
    ensures multiset(KeepInside(vs, es, n, ps)) <= multiset(ps)
    ensures forall q :: q in KeepInside(vs, es, n, ps) <==> q in ps && Inside(vs, es, n, q)
  {
    if ps != [] {
      var init := ps[..|ps| - 1];
      var last := ps[|ps| - 1];
      assert ps == init + [last];
      KeepInsideSound(vs, es, n, init);
    }
  }

  /** Filtering a concatenation filters each part. */
  lemma {:induction false} KeepInsideAppend(vs: seq<Vec3D>, es: seq<Edge>, n: Vec3D, a: seq<Vec3D>, b: seq<Vec3D>)
    ensures KeepInside(vs, es, n, a + b) == KeepInside(vs, es, n, a) + KeepInside(vs, es, n, b)
    decreases |b|
  {
    if b != [] {
      var init := b[..|b| - 1];
      assert (a + b)[..|a + b| - 1] == a + init;
      KeepInsideAppend(vs, es, n, a, init);
    } else {
      assert a + b == a;
    }
  }

  /** Filtering one more candidate appends it exactly when it is inside. */
  lemma KeepInsideSnoc(vs: seq<Vec3D>, es: seq<Edge>, n: Vec3D, a: seq<Vec3D>, x: Vec3D)
    ensures KeepInside(vs, es, n, a + [x]) ==
      KeepInside(vs, es, n, a) + (if Inside(vs, es, n, x) then [x] else [])
  {
    assert (a + [x])[..|a + [x]| - 1] == a;
  }

  /** The first `m` elements of a rearrangement of `ps` are drawn from `ps`
      without repetition. */
  lemma PrefixOfPermutation(sh: seq<Vec3D>, ps: seq<Vec3D>, m: nat)
    requires multiset(sh) == multiset(ps) && m <= |sh|
    ensures multiset(sh[..m]) <= multiset(ps)
  {
    assert sh == sh[..m] + sh[m..];
    assert multiset(sh) == multiset(sh[..m]) + multiset(sh[m..]);
  }

  /** The equal-area selection from the accepted candidates `cs`: all of
      them in order when there are at most `m`, otherwise the first `m` of
      some rearrangement of them (the engine shuffles with a random
      generator). */
  ghost predicate Selection(chosen: seq<Vec3D>, cs: seq<Vec3D>, m: int) {
    if |cs| <= m then chosen == cs
    else 0 <= m && exists sh: seq<Vec3D> :: multiset(sh) == multiset(cs) && m <= |sh| && chosen == sh[..m]
  }

  /** A selection holds `min(m, |cs|)` candidates, drawn from `cs` without
      repetition. */
  lemma SelectionDrawn(chosen: seq<Vec3D>, cs: seq<Vec3D>, m: int)
    requires m > 0 && Selection(chosen, cs, m)
    ensures |chosen| == if |cs| <= m then |cs| else m
    ensures multiset(chosen) <= multiset(cs)
  {
    if |cs| > m {
      var sh: seq<Vec3D> :| multiset(sh) == multiset(cs) && m <= |sh| && chosen == sh[..m];
      assert |sh| == |multiset(sh)| == |multiset(cs)| == |cs|;
      PrefixOfPermutation(sh, cs, m);
    }
  }

  /** Every selected candidate passes the test. */
  lemma SelectionInside(chosen: seq<Vec3D>, vs: seq<Vec3D>, es: seq<Edge>, n: Vec3D, ps: seq<Vec3D>, m: int)
    requires m > 0 && Selection(chosen, KeepInside(vs, es, n, ps), m)
    ensures forall k :: 0 <= k < |chosen| ==> Inside(vs, es, n, chosen[k])
  {
    var cs := KeepInside(vs, es, n, ps);
    SelectionDrawn(chosen, cs, m);
    KeepInsideSound(vs, es, n, ps);
    forall k | 0 <= k < |chosen|
      ensures Inside(vs, es, n, chosen[k])
    {
      assert chosen[k] in multiset(chosen);
      assert chosen[k] in cs;
    }
  }

  // ---------------------------------------------------------------------
  // The candidate sets of the three grid generators

  /** The interior grid: the lines strictly between the first and the last
      of `nx` columns and `ny` rows spread over the box, at the box's lowest
      z. */
  function InteriorGrid(b: Box, nx: int, ny: int): seq<Vec3D> {
    Grid(b.minX, Spacing(b.minX, b.maxX, nx), 1, nx - 1,
         b.minY, Spacing(b.minY, b.maxY, ny), 1, ny - 1, b.minZ)
  }

  /** The equal-area grid: all `nx` columns and `ny` rows spread over the
      box, at the box's lowest z. */
  function EqualAreaGrid(b: Box, nx: int, ny: int): seq<Vec3D> {
    Grid(b.minX, Spacing(b.minX, b.maxX, nx), 0, nx,
         b.minY, Spacing(b.minY, b.maxY, ny), 0, ny, b.minZ)
  }

  /** The uniform grid: lines `edgeLength / (n - 1)` apart from the box's
      low corner up to its far sides, at the box's lowest z. With one point
      per edge the engine's spacing is an IEEE infinity (or NaN), so each
      loop visits its first line only. */
  function UniformSpacedGrid(b: Box, edgeLength: real, n: int): seq<Vec3D>
    requires n == 1 || (n >= 2 && edgeLength > 0.0)
  {
    if n == 1 then
      Grid(b.minX, 0.0, 0, 1, b.minY, 0.0, 0, 1, b.minZ)
    else
      var s := edgeLength / (n - 1) as real;
      Grid(b.minX, s, 0, Steps(b.minX, b.maxX, s), b.minY, s, 0, Steps(b.minY, b.maxY, s), b.minZ)
  }
}
