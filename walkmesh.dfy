/**
 * The walk mesh itself: vertex positions and normals, the triangle list and
 * the directed-edge adjacency map, with `start` (snap a world point onto the
 * nearest triangle) and `walk` (move a walk point across the surface).
 */
module WalkMeshes {
  import opened Vectors
  import opened TriangleGeometry
  import opened EdgeMaps

  /** A value that may be missing. */
  datatype Option<T> = None | Some(value: T)

  /** One record of the vertex chunk: a position and a normal. */
  datatype VertexEntry = VertexEntry(position: Vec3, normal: Vec3)

  /** A triangle of the mesh (as an index triple) and barycentric weights on it. */
  datatype WalkPoint = WalkPoint(triangle: Tri, weights: Vec3)

  /** A weight at or below this counts as having left the triangle during the scan. */
  const Threshold: real := -0.0001
  /** The scan advances `t` by 0.1 until it reaches 1, so it takes at most ten steps. */
  const ScanSteps: nat := 10
  /** Extra fraction of the step added after crossing into a neighbour. */
  const NudgeFactor: real := 0.2
  /** Fraction of the step taken along a boundary edge with no neighbour. */
  const SlideFactor: real := 0.02
  /** Value the corner fix writes into one of two non-positive weights. */
  const CornerWeight: real := 0.1

  /** The scan's loop condition on the weights: every weight above the threshold. */
  predicate AllAbove(s: Vec3) {
    s.x > Threshold && s.y > Threshold && s.z > Threshold
  }

  /** At least one weight is at or below 0. */
  predicate SomeNonPositive(s: Vec3) {
    s.x <= 0.0 || s.y <= 0.0 || s.z <= 0.0
  }

  /** `weights + t * weights_step` after `k` increments of 0.1, computed exactly. */
  function ScanPoint(w: Vec3, d: Vec3, k: nat): Vec3 {
    Add(w, Scale(k as real / 10.0, d))
  }

  /**
   * The number of increments after which the scan of WalkMesh.cpp:184-191
   * stops when it has already made `k`: the first `j >= k` at which `t`
   * reaches 1 or a weight has dropped to the threshold.
   */
  function ExitStep(w: Vec3, d: Vec3, k: nat): (r: nat)
    requires k <= ScanSteps
    ensures k <= r <= ScanSteps
    ensures r < ScanSteps ==> !AllAbove(ScanPoint(w, d, r))
    ensures forall j :: k <= j < r ==> AllAbove(ScanPoint(w, d, j))
    decreases ScanSteps - k
  {
    if k == ScanSteps || !AllAbove(ScanPoint(w, d, k)) then k else ExitStep(w, d, k + 1)
  }

  /**
   * The scan loop of WalkMesh.cpp:184-191: `t` grows from 0 by 0.1 while
   * `t < 1` and every weight of `w + t * d` stays above the threshold.
   * It returns the final `t` and weights.
   */
  method Scan(w: Vec3, d: Vec3) returns (t: real, sum: Vec3)
    ensures var k := ExitStep(w, d, 0); t == k as real / 10.0 && sum == ScanPoint(w, d, k)
    ensures t >= 1.0 <==> ExitStep(w, d, 0) == ScanSteps
  {
    t := 0.0;
    sum := w;
    ghost var k: nat := 0;
    assert sum == ScanPoint(w, d, 0);
    while AllAbove(sum) && t < 1.0
      invariant k <= ScanSteps && t == k as real / 10.0
      invariant sum == ScanPoint(w, d, k)
      invariant ExitStep(w, d, k) == ExitStep(w, d, 0)
      decreases ScanSteps - k
    {
      ExitStepAdvances(w, d, k);
      t := t + 0.1;
      k := k + 1;
      sum := Add(w, Scale(t, d));
    }
    ExitStepStops(w, d, k);
  }

  /** Weights above the threshold before `t` reaches 1 let the scan go one increment further. */
  lemma ExitStepAdvances(w: Vec3, d: Vec3, k: nat)
    requires k < ScanSteps && AllAbove(ScanPoint(w, d, k))
    ensures ExitStep(w, d, k + 1) == ExitStep(w, d, k)
  {
  }

  /** The scan stops at `k` once `t` reaches 1 or a weight drops to the threshold. */
  lemma ExitStepStops(w: Vec3, d: Vec3, k: nat)
    requires k <= ScanSteps
    requires k == ScanSteps || !AllAbove(ScanPoint(w, d, k))
    ensures ExitStep(w, d, k) == k
  {
  }

  /** A scan that never drops below the threshold runs all ten increments. */
  lemma {:induction false} ScanOfConstant(w: Vec3, k: nat)
    requires k <= ScanSteps && AllAbove(w)
    ensures ExitStep(w, Zero, k) == ScanSteps
    decreases ScanSteps - k
  {
    assert ScanPoint(w, Zero, k) == w;
    if k < ScanSteps {
      ScanOfConstant(w, k + 1);
    }
  }

  /**
   * The loop tests the weights only while `t < 1`, so the scan runs all ten
   * increments once the points at `t = 0, 0.1, ..., 0.9` are above the
   * threshold, whatever the weights at `t = 1` are.
   */
  lemma {:induction false} ExitStepFull(w: Vec3, d: Vec3, k: nat)
    requires k <= ScanSteps
    requires forall j :: k <= j < ScanSteps ==> AllAbove(ScanPoint(w, d, j))
    ensures ExitStep(w, d, k) == ScanSteps
    decreases ScanSteps - k
  {
    if k < ScanSteps {
      ExitStepFull(w, d, k + 1);
    }
  }

  /**
   * The branch without a crossing (WalkMesh.cpp:188-204) can leave a weight
   * below the threshold. When the step from the weights (0.5, 0.5, 0) aims at
   * (-0.04, 1.04, 0), as it does on the triangle of
   * `WalkMesh.OvershootTarget`, every point up to `t = 0.9` is above the
   * threshold, so the scan runs to `t = 1` and `walk` keeps the target,
   * whose first weight is -0.04 (`OvershootWeights`). From there a zero step
   * crosses (`WalkMesh.ZeroStepCrosses`).
   */
  lemma OvershootScan(w: Vec3, target: Vec3, d: Vec3)
    requires w == Vec3(0.5, 0.5, 0.0) && target == Vec3(-0.04, 1.04, 0.0)
    requires d == Sub(target, w)
    ensures ExitStep(w, d, 0) == ScanSteps
  {
    assert d == Vec3(-0.54, 0.54, 0.0);
    OvershootSteps(w, d);
  }

  /** The weights (-0.04, 1.04, 0) sum to 1 but are not all above the threshold. */
  lemma OvershootWeights(target: Vec3)
    requires target == Vec3(-0.04, 1.04, 0.0)
    ensures Total(target) == 1.0 && !AllAbove(target)
  {
  }

  /** Every point `w + t * d` for `t = 0, 0.1, ..., 0.9` has all weights above the threshold. */
  lemma OvershootSteps(w: Vec3, d: Vec3)
    requires w == Vec3(0.5, 0.5, 0.0) && d == Vec3(-0.54, 0.54, 0.0)
    ensures ExitStep(w, d, 0) == ScanSteps
  {
    forall j | 0 <= j < ScanSteps
      ensures AllAbove(ScanPoint(w, d, j))
    {
      var f := j as real / 10.0;
      assert 0.0 <= f <= 0.9;
      assert ScanPoint(w, d, j) == Vec3(0.5 - f * 0.54, 0.5 + f * 0.54, f * 0.0);
    }
    ExitStepFull(w, d, 0);
  }

  /** Weights not all above the threshold stop a scan with no weight change at once. */
  lemma ZeroChangeScan(w: Vec3)
    requires !AllAbove(w)
    ensures ExitStep(w, Zero, 0) == 0
  {
    assert ScanPoint(w, Zero, 0) == w;
  }

  /**
   * The corner fix (WalkMesh.cpp:193-201): when two weights are non-positive
   * one of them is raised to 0.1, so that one edge is chosen.
   */
  function CornerFix(s: Vec3): Vec3 {
    if s.x <= 0.0 && s.y <= 0.0 then s.(x := CornerWeight)
    else if s.x <= 0.0 && s.z <= 0.0 then s.(x := CornerWeight)
    else if s.y <= 0.0 && s.z <= 0.0 then s.(z := CornerWeight)
    else s
  }

  /**
   * Where the scan stopped short, at least one weight is non-positive after
   * the corner fix, so one of the edge selections always fires.
   */
  lemma CornerFixKeepsCrossing(s: Vec3)
    requires !AllAbove(s)
    ensures SomeNonPositive(CornerFix(s))
  {
  }

  /**
   * For weights that sum to 1, at most two are non-positive, and after the
   * corner fix exactly one is, so exactly one edge selection fires.
   */
  lemma CornerFixLeavesOne(s: Vec3)
    requires Total(s) == 1.0 && !AllAbove(s)
    ensures !(s.x <= 0.0 && s.y <= 0.0 && s.z <= 0.0)
    ensures ExactlyOneNonPositive(CornerFix(s))
  {
  }

  /** Exactly one of the three weights is at or below 0. */
  predicate ExactlyOneNonPositive(f: Vec3) {
    || (f.x <= 0.0 && f.y > 0.0 && f.z > 0.0)
    || (f.x > 0.0 && f.y <= 0.0 && f.z > 0.0)
    || (f.x > 0.0 && f.y > 0.0 && f.z <= 0.0)
  }

  /** Moving along a weight change that sums to 0 keeps the weights summing to 1. */
  lemma ScanPointTotal(w: Vec3, d: Vec3, k: nat)
    requires Total(w) == 1.0 && Total(d) == 0.0
    ensures Total(ScanPoint(w, d, k)) == 1.0
  {
    var f := k as real / 10.0;
    assert f * d.x + f * d.y + f * d.z == f * Total(d);
  }

  /**
   * A scan from `w` along `d` that stops before `t = 1` leaves, after the
   * corner fix, exactly one weight that is not positive.
   */
  predicate CrossesOneEdge(w: Vec3, d: Vec3) {
    var k := ExitStep(w, d, 0);
    k < ScanSteps ==> ExactlyOneNonPositive(CornerFix(ScanPoint(w, d, k)))
  }

  /**
   * When the weights sum to 1 and their change sums to 0, a scan that stops
   * before `t = 1` leaves, after the corner fix, exactly one weight that is
   * not positive, so exactly one edge is crossed.
   */
  lemma ScanStopLeavesOne(w: Vec3, d: Vec3)
    requires Total(w) == 1.0 && Total(d) == 0.0
    ensures CrossesOneEdge(w, d)
  {
    var k := ExitStep(w, d, 0);
    if k < ScanSteps {
      ScanPointTotal(w, d, k);
      CornerFixLeavesOne(ScanPoint(w, d, k));
    }
  }

  /**
   * The crossed edge (WalkMesh.cpp:211-228). The three tests run in turn and
   * the last that fires decides: weight x non-positive gives the edge (z, y),
   * weight y gives (x, z), weight z gives (y, x), each the reverse of a
   * directed edge of `t`.
   */
  function CrossedEdge(s: Vec3, t: Tri): (e: Edge)
    requires SomeNonPositive(s)
    ensures HasEdge(t, (e.1, e.0))
    ensures s.z <= 0.0 ==> e == (t.y, t.x)
    ensures s.z > 0.0 && s.y <= 0.0 ==> e == (t.x, t.z)
    ensures s.z > 0.0 && s.y > 0.0 ==> e == (t.z, t.y)
  {
    if s.z <= 0.0 then (t.y, t.x) else if s.y <= 0.0 then (t.x, t.z) else (t.z, t.y)
  }

  /** The weights after the edge selection, each non-positive one set to 0. */
  function ClearNonPositive(s: Vec3): (r: Vec3)
    ensures r.x >= 0.0 && r.y >= 0.0 && r.z >= 0.0
    ensures s.x <= 0.0 ==> r.x == 0.0
    ensures s.y <= 0.0 ==> r.y == 0.0
    ensures s.z <= 0.0 ==> r.z == 0.0
    ensures s.x > 0.0 ==> r.x == s.x
    ensures s.y > 0.0 ==> r.y == s.y
    ensures s.z > 0.0 ==> r.z == s.z
  {
    Vec3(if s.x <= 0.0 then 0.0 else s.x, if s.y <= 0.0 then 0.0 else s.y, if s.z <= 0.0 then 0.0 else s.z)
  }

  /** Moving weights by any multiple of the zero change leaves them as they were. */
  lemma SlideByZero(w: Vec3, k: real)
    ensures Add(w, Scale(k, Zero)) == w
  {
  }

  /** A walk mesh: vertices, triangles and the map from each directed side to the vertex opposite it. */
  class WalkMesh {
    const vertices: seq<Vec3>
    const vertexNormals: seq<Vec3>
    const triangles: seq<Tri>
    const nextVertex: map<Edge, nat>

    /**
     * The constructor without the file reading: the vertex records are split
     * into positions and normals (WalkMesh.cpp:27-30) and the adjacency map is
     * built from the triangle list (WalkMesh.cpp:37-45).
     */
    constructor (data: seq<VertexEntry>, tris: seq<Tri>)
      ensures |vertices| == |data| && |vertexNormals| == |data|
      ensures forall i :: 0 <= i < |data| ==> vertices[i] == data[i].position && vertexNormals[i] == data[i].normal
      ensures triangles == tris
      ensures nextVertex == Build(tris)
      ensures Valid()
    {
      var positions, normals := [], [];
      var i := 0;
      while i < |data|
        invariant 0 <= i <= |data|
        invariant |positions| == i && |normals| == i
        invariant forall j :: 0 <= j < i ==> positions[j] == data[j].position && normals[j] == data[j].normal
      {
        positions := positions + [data[i].position];
        normals := normals + [data[i].normal];
        i := i + 1;
      }
      var adjacency := BuildNextVertex(tris);
      vertices := positions;
      vertexNormals := normals;
      triangles := tris;
      nextVertex := adjacency;
    }

    /** The adjacency map is the one the constructor builds from the triangle list. */
    predicate Valid() {
      nextVertex == Build(triangles)
    }

    /** Each corner of `t` is a vertex index. */
    predicate Indexes(t: Tri) {
      t.x < |vertices| && t.y < |vertices| && t.z < |vertices|
    }

    /** `t` names three vertices that span a triangle the two routines can divide by. */
    predicate Usable(t: Tri) {
      Indexes(t) && NonDegenerate(vertices[t.x], vertices[t.y], vertices[t.z])
    }

    /** The adjacency map is built from the triangles, and every triangle is usable. */
    predicate WellFormed() {
      Valid() && forall i :: 0 <= i < |triangles| ==> Usable(triangles[i])
    }

    /** `t` is a triangle of the list, possibly read from another corner. */
    predicate OnMesh(t: Tri) {
      exists i :: 0 <= i < |triangles| && IsRotationOf(t, triangles[i])
    }

    /** The world position of a walk point: its weights applied to its triangle's corners. */
    function WorldPoint(wp: WalkPoint): Vec3
      requires Indexes(wp.triangle)
    {
      Blend(wp.weights, vertices[wp.triangle.x], vertices[wp.triangle.y], vertices[wp.triangle.z])
    }

    /** The point of triangle `t` closest to `q`. */
    function ClosestOn(t: Tri, q: Vec3): Vec3
      requires Usable(t)
    {
      ClosestPointOnTriangle(vertices[t.x], vertices[t.y], vertices[t.z], q)
    }

    /** The barycentric coordinates of `p` in triangle `t`. */
    function WeightsOn(t: Tri, p: Vec3): Vec3
      requires Usable(t)
    {
      Barycentric(vertices[t.x], vertices[t.y], vertices[t.z], p)
    }

    /** Squared distance from `q` to the point `closestPointOnTriangle` picks on `t`. */
    function Distance(t: Tri, q: Vec3): real
      requires Usable(t)
    {
      DistSq(ClosestOn(t, q), q)
    }

    /** Triangle `i` is at least as near as every triangle and strictly nearer than every earlier one. */
    predicate FirstNearest(i: nat, q: Vec3)
      requires WellFormed() && i < |triangles|
    {
      AtMostFirst(Distance(triangles[i], q), |triangles|, q) && BelowFirst(Distance(triangles[i], q), i, q)
    }

    /** `m` is at most the distance of each of the first `n` triangles. */
    predicate AtMostFirst(m: real, n: nat, q: Vec3)
      requires WellFormed() && n <= |triangles|
    {
      forall j :: 0 <= j < n ==> m <= Distance(triangles[j], q)
    }

    /** `m` is below the distance of each of the first `n` triangles. */
    predicate BelowFirst(m: real, n: nat, q: Vec3)
      requires WellFormed() && n <= |triangles|
    {
      forall j :: 0 <= j < n ==> m < Distance(triangles[j], q)
    }

    /** A cyclic rotation of a usable triangle is usable. */
    lemma UsableRotation(r: Tri, t: Tri)
      requires Usable(t) && IsRotationOf(r, t)
      ensures Usable(r)
    {
      var va, vb, vc := vertices[t.x], vertices[t.y], vertices[t.z];
      if r == Tri(t.y, t.z, t.x) {
        NonDegenerateRotation(va, vb, vc);
      } else if r == Tri(t.z, t.x, t.y) {
        NonDegenerateRotation(va, vb, vc);
        NonDegenerateRotation(vb, vc, va);
      }
    }

    /** A triangle of the list read from any corner is usable. */
    lemma OnMeshUsable(t: Tri)
      requires WellFormed() && OnMesh(t)
      ensures Usable(t)
    {
      var i :| 0 <= i < |triangles| && IsRotationOf(t, triangles[i]);
      UsableRotation(t, triangles[i]);
    }

    /** The weights of the point picked on `t` are in [0, 1], and they blend back to it. */
    lemma ClosestWeights(t: Tri, q: Vec3)
      requires Usable(t)
      ensures InSimplex(WeightsOn(t, ClosestOn(t, q)))
      ensures WorldPoint(WalkPoint(t, WeightsOn(t, ClosestOn(t, q)))) == ClosestOn(t, q)
    {
      var va, vb, vc := vertices[t.x], vertices[t.y], vertices[t.z];
      ClosestIsPointAt(va, vb, vc, q);
      BlendOfBarycentric(va, vb, vc, ClosestParams(va, vb, vc, q));
    }

    /** A bound on the first `i` distances that also holds for triangle `i` holds for the first `i + 1`. */
    lemma BoundExtends(q: Vec3, i: nat, m: real)
      requires WellFormed() && i < |triangles|
      requires i == 0 || AtMostFirst(m, i, q)
      requires m <= Distance(triangles[i], q)
      ensures AtMostFirst(m, i + 1, q)
    {
    }

    /** A distance below a bound on the first `i` distances is strictly below each of them. */
    lemma BoundTightens(q: Vec3, i: nat, m: real, d: real)
      requires WellFormed() && i <= |triangles|
      requires AtMostFirst(m, i, q)
      requires d < m
      ensures AtMostFirst(d, i, q) && BelowFirst(d, i, q)
    {
    }

    /**
     * `WalkMesh::start` (WalkMesh.cpp:145-167): a scan for the triangle whose
     * clamped point is nearest to `q`, replacing the running best only on a
     * strictly smaller distance, so the first nearest triangle wins. None
     * stands for the default walk point left when the list is empty.
     */
    method Start(q: Vec3) returns (r: Option<WalkPoint>)
      requires WellFormed()
      ensures r.None? <==> |triangles| == 0
      ensures r.Some? ==> exists i :: 0 <= i < |triangles| && FirstNearest(i, q) &&
                            r.value == WalkPoint(triangles[i], WeightsOn(triangles[i], ClosestOn(triangles[i], q)))
      ensures r.Some? ==> OnMesh(r.value.triangle) && Usable(r.value.triangle)
      ensures r.Some? ==> InSimplex(r.value.weights) && WorldPoint(r.value) == ClosestOn(r.value.triangle, q)
    {
      r := None;
      var minDistance := 0.0;
      ghost var best := 0;
      var i := 0;
      while i < |triangles|
        invariant 0 <= i <= |triangles|
        invariant r.None? <==> i == 0
        invariant r.Some? ==> best < i && minDistance == Distance(triangles[best], q)
        invariant r.Some? ==> r.value == WalkPoint(triangles[best], WeightsOn(triangles[best], ClosestOn(triangles[best], q)))
        invariant r.Some? ==> AtMostFirst(minDistance, i, q) && BelowFirst(minDistance, best, q)
      {
        var triangle := triangles[i];
        var closestPoint := ClosestOn(triangle, q);
        var distance := DistSq(closestPoint, q);
        if r.Some? && distance < minDistance {
          BoundTightens(q, i, minDistance, distance);
        }
        if r.None? || distance < minDistance {
          BoundExtends(q, i, distance);
          minDistance := distance;
          r := Some(WalkPoint(triangle, WeightsOn(triangle, closestPoint)));
          best := i;
        } else {
          BoundExtends(q, i, minDistance);
        }
        i := i + 1;
      }
      if r.Some? {
        assert FirstNearest(best, q);
        assert IsRotationOf(triangles[best], triangles[best]);
        ClosestWeights(triangles[best], q);
      }
    }

    /** `barycoord` of WalkMesh.cpp:180: the weights of the point one full step away. */
    function Target(wp: WalkPoint, step: Vec3): Vec3
      requires Usable(wp.triangle)
    {
      WeightsOn(wp.triangle, Add(WorldPoint(wp), step))
    }

    /** A zero step aims at the walk point itself when its weights sum to 1. */
    lemma StandingStill(wp: WalkPoint)
      requires Usable(wp.triangle) && Total(wp.weights) == 1.0
      ensures Target(wp, Zero) == wp.weights
      ensures Sub(Target(wp, Zero), wp.weights) == Zero
    {
      var t := wp.triangle;
      assert Add(WorldPoint(wp), Zero) == WorldPoint(wp);
      BarycentricOfBlend(vertices[t.x], vertices[t.y], vertices[t.z], wp.weights);
    }

    /**
     * A zero step from weights that sum to 1 and are all above the threshold
     * aims at those weights, and the scan runs all ten increments.
     */
    lemma ZeroStepRunsThrough(wp: WalkPoint)
      requires Usable(wp.triangle) && Total(wp.weights) == 1.0 && AllAbove(wp.weights)
      ensures Target(wp, Zero) == wp.weights
      ensures ExitStep(wp.weights, Sub(Target(wp, Zero), wp.weights), 0) == ScanSteps
    {
      StandingStill(wp);
      ScanOfConstant(wp.weights, 0);
    }

    /**
     * A zero step from weights that sum to 1 but are not all above the
     * threshold takes the crossing branch of `walk` (the scan stops at
     * `t = 0`), so `Walk` moves the point into a neighbour when the crossed
     * edge has one, and otherwise leaves it where it is (`ZeroSlideStays`).
     */
    lemma ZeroStepCrosses(wp: WalkPoint)
      requires Usable(wp.triangle) && Total(wp.weights) == 1.0 && !AllAbove(wp.weights)
      ensures ExitStep(wp.weights, Sub(Target(wp, Zero), wp.weights), 0) == 0
    {
      StandingStill(wp);
      ZeroChangeScan(wp.weights);
    }

    /**
     * With a zero weight change, the slide of line 259 moves nothing: when
     * the crossed edge has no neighbour, the walk point stays as it was.
     */
    lemma ZeroSlideStays(wp: WalkPoint, fixed: Vec3, r: WalkPoint)
      requires Usable(wp.triangle) && Usable(r.triangle) && SomeNonPositive(fixed)
      requires CrossOutcome(wp, Zero, fixed, r) && CrossedEdge(fixed, wp.triangle) !in nextVertex
      ensures r == wp
    {
      assert r == WalkPoint(wp.triangle, Add(wp.weights, Scale(SlideFactor, Zero)));
      SlideByZero(wp.weights, SlideFactor);
    }

    /**
     * The weights `walk` aims at (line 180) for the triangle (0,0,0),
     * (1,0,0), (0,1,0), the weights (0.5, 0.5, 0) and the step (0.54, 0, 0):
     * the moved point is (1.04, 0, 0), outside the triangle, so the first
     * weight is -0.04. With `OvershootScan` the scan runs to `t = 1`, and
     * `Walk` returns these weights.
     */
    lemma OvershootTarget(wp: WalkPoint, step: Vec3) returns (target: Vec3)
      requires Indexes(wp.triangle)
      requires vertices[wp.triangle.x] == Vec3(0.0, 0.0, 0.0)
      requires vertices[wp.triangle.y] == Vec3(1.0, 0.0, 0.0)
      requires vertices[wp.triangle.z] == Vec3(0.0, 1.0, 0.0)
      requires wp.weights == Vec3(0.5, 0.5, 0.0) && step == Vec3(0.54, 0.0, 0.0)
      ensures Usable(wp.triangle)
      ensures target == Target(wp, step) && target == Vec3(-0.04, 1.04, 0.0)
    {
      Overshoot(vertices[wp.triangle.x], vertices[wp.triangle.y], vertices[wp.triangle.z], wp.weights, step);
      target := Target(wp, step);
    }

    /**
     * `walk` from the weights (0.5, 0.5, 0) with a step that aims at the
     * weights (-0.04, 1.04, 0), as `OvershootTarget` shows the step
     * (0.54, 0, 0) does on the triangle (0,0,0), (1,0,0), (0,1,0): the walk
     * point stays on its triangle and ends with a weight below the threshold.
     */
    method OvershootWalk(wp: WalkPoint, step: Vec3) returns (r: WalkPoint)
      requires WellFormed() && OnMesh(wp.triangle) && Usable(wp.triangle)
      requires wp.weights == Vec3(0.5, 0.5, 0.0) && Target(wp, step) == Vec3(-0.04, 1.04, 0.0)
      ensures r.triangle == wp.triangle && r.weights == Vec3(-0.04, 1.04, 0.0)
      ensures Total(r.weights) == 1.0 && !AllAbove(r.weights)
    {
      OvershootScan(Vec3(0.5, 0.5, 0.0), Vec3(-0.04, 1.04, 0.0), Vec3(-0.54, 0.54, 0.0));
      r := WalkWithoutCrossing(wp, step, Vec3(0.5, 0.5, 0.0), Vec3(-0.54, 0.54, 0.0));
      OvershootWeights(r.weights);
    }

    /**
     * `Walk` where the scan from the weights `w` along the weight change `d`
     * of the step runs to `t = 1`: the weights become the target. This
     * method stands for nothing in WalkMesh.cpp; it only hands `Walk` the
     * weights and weight change as literals, which keeps the solver's work
     * on `OvershootWalk` small.
     */
    method WalkWithoutCrossing(wp: WalkPoint, step: Vec3, ghost w: Vec3, ghost d: Vec3) returns (r: WalkPoint)
      requires WellFormed() && OnMesh(wp.triangle) && Usable(wp.triangle)
      requires wp.weights == w && Sub(Target(wp, step), w) == d && ExitStep(w, d, 0) == ScanSteps
      ensures r == WalkPoint(wp.triangle, Add(w, d))
    {
      r := Walk(wp, step);
    }

    /**
     * Where `Cross` leaves the walk point: if the reversed crossed edge is a
     * key, on the triangle `(edge_a, edge_b, next_vertex[edge])` sharing that
     * edge, with weights in [0, 1] that re-project the nudged point;
     * otherwise on its own triangle, moved by a fiftieth of `d`.
     */
    predicate CrossOutcome(wp: WalkPoint, d: Vec3, fixed: Vec3, r: WalkPoint)
      requires Usable(wp.triangle) && Usable(r.triangle) && SomeNonPositive(fixed)
    {
      var e := CrossedEdge(fixed, wp.triangle);
      if e in nextVertex then
        && r.triangle == Tri(e.0, e.1, nextVertex[e])
        && HasEdge(wp.triangle, (e.1, e.0))
        && InSimplex(r.weights)
        && r.weights == WeightsOn(r.triangle, ClosestOn(r.triangle,
             WorldPoint(WalkPoint(wp.triangle, Add(ClearNonPositive(fixed), Scale(NudgeFactor, d))))))
      else
        r == WalkPoint(wp.triangle, Add(wp.weights, Scale(SlideFactor, d)))
    }

    /**
     * The crossing half of `walk` (WalkMesh.cpp:205-260), entered with the
     * corner-fixed weights `fixed` at which the scan stopped and the weight
     * change `d` of the whole step. If the map has a triangle on the far side
     * of the crossed edge, the walk point moves into it, a little past the
     * edge, and is clamped onto it; otherwise it slides a fiftieth of the step
     * on its own triangle.
     */
    method Cross(wp: WalkPoint, d: Vec3, fixed: Vec3) returns (r: WalkPoint)
      requires WellFormed() && OnMesh(wp.triangle) && Usable(wp.triangle) && SomeNonPositive(fixed)
      ensures OnMesh(r.triangle) && Usable(r.triangle)
      ensures Total(wp.weights) == 1.0 && Total(d) == 0.0 ==> Total(r.weights) == 1.0
      ensures CrossOutcome(wp, d, fixed, r)
    {
      var tri := wp.triangle;
      var edge := CrossedEdge(fixed, tri);
      var sum := ClearNonPositive(fixed);
      if edge in nextVertex {
        sum := Add(sum, Scale(NudgeFactor, d));
        var newPoint := Blend(sum, vertices[tri.x], vertices[tri.y], vertices[tri.z]);
        var next := Tri(edge.0, edge.1, nextVertex[edge]);
        BuildCompletesRotation(triangles, edge);
        OnMeshUsable(next);
        var projectPoint := ClosestOn(next, newPoint);
        r := WalkPoint(next, WeightsOn(next, projectPoint));
        ClosestWeights(next, newPoint);
      } else {
        r := WalkPoint(tri, Add(wp.weights, Scale(SlideFactor, d)));
      }
    }

    /**
     * `WalkMesh::walk` (WalkMesh.cpp:170-262). The walk point passed by
     * reference is the argument `wp` on entry and the result `r` on exit. The
     * scan moves `t` from 0 in steps of 0.1 while every weight of
     * `weights + t * weights_step` stays above the threshold; reaching `t = 1`
     * means no edge was crossed.
     */
    method Walk(wp: WalkPoint, step: Vec3) returns (r: WalkPoint)
      requires WellFormed() && OnMesh(wp.triangle) && Usable(wp.triangle)
      ensures OnMesh(r.triangle) && Usable(r.triangle)
      ensures Total(wp.weights) == 1.0 ==> Total(r.weights) == 1.0
      ensures var d := Sub(Target(wp, step), wp.weights);
        ExitStep(wp.weights, d, 0) == ScanSteps ==> r == WalkPoint(wp.triangle, Target(wp, step))
      ensures var d := Sub(Target(wp, step), wp.weights);
        var k := ExitStep(wp.weights, d, 0);
        var fixed := CornerFix(ScanPoint(wp.weights, d, k));
        k < ScanSteps ==> (
          && SomeNonPositive(fixed)
          && var e := CrossedEdge(fixed, wp.triangle);
          && HasEdge(wp.triangle, (e.1, e.0))
          && CrossOutcome(wp, d, fixed, r))
      ensures Total(wp.weights) == 1.0 ==> CrossesOneEdge(wp.weights, Sub(Target(wp, step), wp.weights))
      ensures step == Zero && Total(wp.weights) == 1.0 && AllAbove(wp.weights) ==> r == wp
    {
      var tri := wp.triangle;
      var vertexA, vertexB, vertexC := vertices[tri.x], vertices[tri.y], vertices[tri.z];
      var oldPoint := Blend(wp.weights, vertexA, vertexB, vertexC);
      var newPoint := Add(oldPoint, step);
      var barycoord := Barycentric(vertexA, vertexB, vertexC, newPoint);
      assert barycoord == Target(wp, step);
      var weightsStep := Sub(barycoord, wp.weights);

      var t, sum := Scan(wp.weights, weightsStep);
      ghost var k := ExitStep(wp.weights, weightsStep, 0);
      sum := CornerFix(sum);

      if t >= 1.0 {
        r := WalkPoint(tri, Add(wp.weights, weightsStep));
        AddDifference(wp.weights, barycoord);
      } else {
        CornerFixKeepsCrossing(ScanPoint(wp.weights, weightsStep, k));
        r := Cross(wp, weightsStep, sum);
        if Total(wp.weights) == 1.0 {
          ScanStopLeavesOne(wp.weights, weightsStep);
        }
      }

      if step == Zero && Total(wp.weights) == 1.0 && AllAbove(wp.weights) {
        ZeroStepRunsThrough(wp);
      }
    }
  }
}
