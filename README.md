# Walk mesh

A walk mesh is a triangulated surface that a character is kept glued to. A
*walk point* is a triangle of the mesh, given as a triple of vertex indices,
together with barycentric weights on that triangle. The mesh stores vertex
positions and normals, the triangle list, and an adjacency map `next_vertex`
that sends each directed edge `(a, b)` of a stored triangle `(a, b, c)` to
its third vertex. Through that map a walk point crosses into the triangle on
the other side of an edge.

This project models the walk-mesh core of `WalkMesh.cpp` over exact reals
and proves properties of the model.

- `vectors.dfy` (module `Vectors`) holds the `glm::vec3` arithmetic the core
  uses: sums, differences, scaling, dot products, barycentric blends,
  squared distance and `glm::clamp` to [0, 1].
- `triangle.dfy` (module `TriangleGeometry`) models the two free functions.
  `closestPointOnTriangle` is the seven-region case analysis on the
  quadratic `a s^2 + 2 b s t + c t^2 + 2 d s + 2 e t + f`.
  `calculate_barycentric_coord` is Cramer's rule on the 2x2 Gram system.
  The branch structure is a scalar function, `SolveRegion`, on the
  routine's local values, so each branch can be reasoned about on its own.
- `edges.dfy` (module `EdgeMaps`) holds the adjacency map. `Build` is the
  map the constructor's loop produces; `BuildNextVertex` is that loop.
- `walkmesh.dfy` (module `WalkMeshes`) holds the class `WalkMesh`. Its
  `const` fields are the data the constructor fills once. The class has:
  - the constructor, without file reading;
  - `Start`, the argmin scan of `WalkMesh::start`;
  - `Walk`, the state machine of `WalkMesh::walk`.

  `Walk` is split in two for the proof:
  - `Scan` is the coarse scan loop, specified by the function `ExitStep`;
  - `Cross` is the crossing half, entered once the scan stops short.

  The walk point that the source updates through a reference is an
  argument on entry and the returned value on exit.

Every division in the two geometric routines is unguarded in the source, so
the model requires a non-degenerate triangle. `NonDegenerate` states that
`a`, `c`, `a - 2b + c` and the Gram determinant `a c - b b` are positive.
The third follows from the other three (`ThirdSidePositive`); it is stated
separately because lines 95, 105 and 114 divide by it.
`WalkMesh.WellFormed` asks this of every stored triangle, and asks that
every vertex index is in range.

Where the Eberly reference and the code differ, the code is followed.
Line 108 clamps `-e/c` into `s` on the side `t = 0`, where the reference
method clamps `-d/a`. `SolveRegion` does the same. `Region6FallbackNotNearest`
names a triangle and a query for which the result is therefore on the
triangle but not its nearest point.

## Model

| member | source | states |
|---|---|---|
| EdgeMaps.BuildNextVertex | WalkMesh.cpp:37-45 | the constructor's loop over the triangle list leaves exactly the map `Build(ts)`: three directed-edge writes per triangle, in list order |
| EdgeMaps.InsertAt | WalkMesh.cpp:42-44 | `Insert`, the three writes for one triangle `(a, b, c)`, adds exactly the keys `(a, b)`, `(b, c)`, `(c, a)`, stores the third vertex under each, and leaves every other key as it was |
| EdgeMaps.BuildKeys | WalkMesh.cpp:37-45 | a directed edge is a key of the finished map if and only if some triangle of the list has that directed edge |
| EdgeMaps.StoredEdgesPresent | WalkMesh.cpp:37-45 | all three directed edges of every stored triangle are keys |
| EdgeMaps.BuildLastWins | WalkMesh.cpp:37-45 | a key maps to the third vertex of the last triangle in list order that has that directed edge: later triangles overwrite earlier ones |
| EdgeMaps.ThirdIsRotation | WalkMesh.cpp:42-44 | a key completed with the vertex stored under it is the triangle read from one of its three corners |
| EdgeMaps.BuildCompletesRotation | WalkMesh.cpp:37-45 | every key completed with the vertex it maps to is a cyclic rotation of some stored triangle |
| Vectors.Clamp01 | WalkMesh.cpp:70 | `glm::clamp(x, 0, 1)` lies in [0, 1] and leaves a value already in [0, 1] unchanged |
| TriangleGeometry.SolveRegion | WalkMesh.cpp:66-117 | every branch of the case analysis leaves `s >= 0`, `t >= 0` and `s + t <= 1` |
| TriangleGeometry.ClosestParams | WalkMesh.cpp:52-117 | the parameters the routine settles on for a query name a point of the closed triangle |
| TriangleGeometry.ClosestPointOnTriangle | WalkMesh.cpp:50-120 | the result's barycentric coordinates are all in [0, 1] and sum to 1, and blending the corners by them gives the result back, so it lies on the triangle (interior, side or corner) |
| TriangleGeometry.InteriorSolution | WalkMesh.cpp:62-64 | the interior parameters zero both partial derivatives of the squared distance: `s a + t b = -d` and `s b + t c = -e` |
| TriangleGeometry.StationaryIsOrthogonal | WalkMesh.cpp:119 | at parameters that zero both partial derivatives, `q - P` is orthogonal to both edges |
| TriangleGeometry.InteriorIsProjection | WalkMesh.cpp:84-86 | in the interior branch the returned point is the orthogonal projection of the query onto the triangle's plane: `(q - P) . edge0 = 0` and `(q - P) . edge1 = 0` |
| TriangleGeometry.CoeffsOfPointAt | WalkMesh.cpp:56-60 | `CoeffsOf` computes the coefficients `a` to `e`; for a query in the triangle's plane at `(s, t)`, `d = -(s a + t b)` and `e = -(s b + t c)` |
| TriangleGeometry.SolveRegionOnTriangle | WalkMesh.cpp:66-117 | the case analysis returns `(s, t)` itself for a plane point whose `(s, t)` is on the closed triangle |
| TriangleGeometry.ClosestOfPointOnTriangle | WalkMesh.cpp:50-120 | a query point that already lies on the closed triangle is returned unchanged |
| TriangleGeometry.ClampNearest | WalkMesh.cpp:70 | `clamp(x, 0, 1)` is the point of [0, 1] nearest to `x` |
| TriangleGeometry.ClampMinimises | WalkMesh.cpp:70 | for `a > 0` the clamped stationary point `clamp(-d/a, 0, 1)` minimises `a s^2 + 2 d s` over [0, 1] |
| TriangleGeometry.DistanceAlongEdge0 | WalkMesh.cpp:56-59 | the squared distance from `q` to `vertex_a + s * edge0` is `\|v0\|^2 + 2 s d + s^2 a` |
| TriangleGeometry.DistanceAlongEdge1 | WalkMesh.cpp:56-60 | the squared distance from `q` to `vertex_a + t * edge1` is `\|v0\|^2 + 2 t e + t^2 c` |
| TriangleGeometry.ThirdSidePositive | WalkMesh.cpp:95 | positive `a`, `c` and `a c - b b` make the divisor `a - 2b + c` of lines 95, 105 and 114 positive |
| TriangleGeometry.Edge0ClampNearest | WalkMesh.cpp:70-71 | on the side `t = 0` the parameter `clamp(-d/a)` gives the point nearest to `q` |
| TriangleGeometry.Edge1ClampNearest | WalkMesh.cpp:73-74 | on the side `s = 0` the parameter `clamp(-e/c)` gives the point nearest to `q` |
| TriangleGeometry.Edge0ClampIsNearest | WalkMesh.cpp:66-82 | where the routine settles on the side `t = 0` (lines 69-71 and 80-82), its result is at least as near to `q` as every point of that side |
| TriangleGeometry.Edge1ClampIsNearest | WalkMesh.cpp:66-100 | where the routine settles on the side `s = 0` (lines 73-75, 77-79 and 97-99), its result is at least as near to `q` as every point of that side |
| TriangleGeometry.Region6FallbackParams | WalkMesh.cpp:101-110 | for the coefficients `(1, 0, 1, -2, 1)` the case analysis reaches the fallback of line 108 and returns `(0, 0)` |
| TriangleGeometry.Region6FallbackNotNearest | WalkMesh.cpp:107-110 | for the triangle (0,0,0), (1,0,0), (0,1,0) and the query (2,-1,0), the routine returns the corner (0,0,0) although the corner (1,0,0) is strictly nearer |
| TriangleGeometry.NonDegenerateRotation | WalkMesh.cpp:56-62 | a triangle read from its second corner is non-degenerate when the original is: the side lengths are permuted and the Gram determinant is kept |
| TriangleGeometry.Barycentric | WalkMesh.cpp:125-143 | the three coordinates always sum to exactly 1, because `u = 1 - v - w` |
| TriangleGeometry.CramerWeights | WalkMesh.cpp:136-142 | Cramer's rule followed by `u = 1 - v - w` gives three weights summing to 1 |
| TriangleGeometry.CramerSolves | WalkMesh.cpp:136-141 | when the right-hand sides are those of `s * edge0 + t * edge1`, Cramer's rule gives back `(1 - s - t, s, t)` |
| TriangleGeometry.BarycentricOfPointAt | WalkMesh.cpp:125-143 | the coordinates of `vertex_a + s * edge0 + t * edge1` are exactly `(1 - s - t, s, t)` |
| TriangleGeometry.BlendOfParams | WalkMesh.cpp:119 | the blend of the weights `(1 - s - t, s, t)` on the corners is `vertex_a + s * edge0 + t * edge1` |
| TriangleGeometry.BarycentricOfBlend | WalkMesh.cpp:125-143 | weights summing to 1 are the coordinates of their own blend |
| TriangleGeometry.BlendOfBarycentric | WalkMesh.cpp:125-143 | blending the coordinates of a point of the triangle's plane gives the point back |
| TriangleGeometry.Overshoot | WalkMesh.cpp:125-143 | on the triangle (0,0,0), (1,0,0), (0,1,0), the point with weights (0.5, 0.5, 0) moved by (0.54, 0, 0) has the coordinates (-0.04, 1.04, 0) |
| WalkMeshes.WalkMesh.constructor | WalkMesh.cpp:27-45 | the positions and normals are those of the vertex records, in order; the triangle list is kept; the adjacency map is `Build` of the list |
| WalkMeshes.WalkMesh.UsableRotation | WalkMesh.cpp:243-250 | a cyclic rotation of a usable triangle is usable: its indices are in range and it is non-degenerate |
| WalkMeshes.WalkMesh.OnMeshUsable | WalkMesh.cpp:243-250 | in a well-formed mesh every rotation of a stored triangle is usable |
| WalkMeshes.WalkMesh.ClosestWeights | WalkMesh.cpp:155-162 | the weights of the point picked on a triangle are in [0, 1], sum to 1 and blend back to that point |
| WalkMeshes.WalkMesh.Start | WalkMesh.cpp:145-167 | the result is on the triangle nearest to the query, as measured by the distance to the point `closestPointOnTriangle` picks on each triangle; on a tie the first such triangle in list order wins; its weights are the clamped point's coordinates, in [0, 1] and summing to 1, and blend to that point; an empty list gives None |
| WalkMeshes.ExitStep | WalkMesh.cpp:184-191 | the scan stops after at most ten increments; where it stops short some weight is at or below -0.0001; every earlier stop had all weights above it |
| WalkMeshes.ExitStepFull | WalkMesh.cpp:188-191 | the loop tests the weights only while `t < 1`: when the points at `t = 0, 0.1, ..., 0.9` are above the threshold the scan runs all ten increments, whatever the weights at `t = 1` |
| WalkMeshes.OvershootSteps | WalkMesh.cpp:188-191 | from the weights (0.5, 0.5, 0) along (-0.54, 0.54, 0), every point up to `t = 0.9` is above the threshold, so the scan runs to `t = 1` |
| WalkMeshes.OvershootScan | WalkMesh.cpp:188-204 | a scan from (0.5, 0.5, 0) aimed at (-0.04, 1.04, 0) runs to `t = 1`, so the branch without a crossing keeps that target |
| WalkMeshes.OvershootWeights | WalkMesh.cpp:188 | the weights (-0.04, 1.04, 0) sum to 1 but one of them is below -0.0001 |
| WalkMeshes.ZeroChangeScan | WalkMesh.cpp:188-191 | with a zero weight change, weights not all above the threshold stop the scan at `t = 0` |
| WalkMeshes.Scan | WalkMesh.cpp:184-191 | the loop ends with `t = k/10` and the weights `weights + t * weights_step` at the exit step `k`; `t >= 1` exactly when all ten increments ran |
| WalkMeshes.ScanOfConstant | WalkMesh.cpp:184-191 | with a zero weight change and all weights above the threshold, the scan runs to `t = 1` |
| WalkMeshes.ScanPointTotal | WalkMesh.cpp:190 | `ScanPoint` is `weights + t * weights_step` at step `k`; moving along a weight change that sums to 0 keeps the weights summing to 1 |
| WalkMeshes.CornerFixKeepsCrossing | WalkMesh.cpp:193-201 | where the scan stopped short, some weight is still non-positive after the corner fix |
| WalkMeshes.CornerFixLeavesOne | WalkMesh.cpp:193-201 | for weights summing to 1 at most two are non-positive, and after the corner fix (`CornerFix`, which sets one of two non-positive weights to 0.1) exactly one is |
| WalkMeshes.ScanStopLeavesOne | WalkMesh.cpp:184-201 | for weights summing to 1 and a change summing to 0, a scan that stops before `t = 1` leaves exactly one non-positive weight after the corner fix (`CrossesOneEdge`) |
| WalkMeshes.CrossedEdge | WalkMesh.cpp:211-228 | x non-positive selects `(z, y)`, y selects `(x, z)`, z selects `(y, x)`, the last test that fires deciding; the selected edge is the reverse of a directed edge of the triangle |
| WalkMeshes.ClearNonPositive | WalkMesh.cpp:211-228 | every non-positive weight becomes 0 and the positive ones are kept |
| WalkMeshes.WalkMesh.StandingStill | WalkMesh.cpp:177-182 | `Target`, the weights `barycoord` of line 180, is the barycentric coordinates of the moved point; for weights summing to 1, a zero step aims at the walk point's own weights, so the weight change is zero |
| WalkMeshes.WalkMesh.ZeroStepCrosses | WalkMesh.cpp:177-204 | a zero step from weights summing to 1 with one weight at or below -0.0001 stops the scan at `t = 0`, so `walk` takes the crossing branch instead of the branch without a crossing |
| WalkMeshes.WalkMesh.ZeroSlideStays | WalkMesh.cpp:258-259 | when the crossed edge is not a key and the weight change is zero, the slide by `0.02 * weights_step` leaves the walk point exactly as it was |
| WalkMeshes.WalkMesh.OvershootTarget | WalkMesh.cpp:177-182 | on a mesh triangle at (0,0,0), (1,0,0), (0,1,0), the weights (0.5, 0.5, 0) and the step (0.54, 0, 0) aim at the weights (-0.04, 1.04, 0) |
| WalkMeshes.WalkMesh.OvershootWalk | WalkMesh.cpp:170-204 | `walk` from the weights (0.5, 0.5, 0) with a step aiming at (-0.04, 1.04, 0) keeps its triangle and returns those weights, which sum to 1 but include one below -0.0001 |
| WalkMeshes.WalkMesh.Cross | WalkMesh.cpp:205-260 | if the reversed edge is a key, the new triangle is `(edge_a, edge_b, next_vertex[edge])`, a rotation of a stored triangle sharing the crossed edge, with weights in [0, 1] that re-project the nudged point; otherwise the triangle is kept and the weights move by `0.02 * weights_step`; weights summing to 1 keep summing to 1 |
| WalkMeshes.WalkMesh.Walk | WalkMesh.cpp:170-262 | the result is on the mesh; with no crossing the weights become the coordinates of `old_point + step`; with a crossing exactly one weight is non-positive after the corner fix when the weights sum to 1 (`CrossesOneEdge`), so one edge is selected, and the outcome is that of `Cross`; weights summing to 1 keep summing to 1; a zero step on weights summing to 1 and above the threshold changes nothing |

## Left out

- File and stream input in the constructor (lines 11-35: `std::ifstream`, the `vex0` and `tri0` chunks) and the `std::cerr` logging are left out. The constructor takes the vertex records and the triangle list as arguments.
- The model computes over exact reals, not IEEE single precision. Rounding is not modelled.
- The scan's `t` is exact: ten increments of 0.1 reach exactly 1. In single precision they reach slightly more than 1, so the loop also stops after ten increments.
- `glm::distance` is replaced by the squared distance. This leaves the argmin of `start` unchanged.
- WalkMeshes.WalkMesh.Start: `MAXFLOAT` is modelled as "no candidate yet", so the first triangle is always taken. An empty list yields `None`, where the source returns a default-constructed walk point. Its initialiser is in `WalkMesh.hpp`, which is not part of this model.
- WalkMeshes.WalkMesh.Start: the triangle returned is nearest only by the distance to the point `closestPointOnTriangle` picks on it. Where line 108's fallback fires, that point can be farther than the triangle's true nearest point, so `start` can pick a triangle that is not geometrically nearest. For example, the query (2,-1,0) is at squared distance 5 from the point picked on the triangle (0,0,0), (1,0,0), (0,1,0), but its true squared distance is 2. The triangle (1,-2,2), (4,-2,2), (1,1,2) is at squared distance 4, so `start` returns that one.
- TriangleGeometry.ClosestPointOnTriangle: the routine is not claimed to return the nearest point of the triangle. Line 108 departs from the reference method, as `Region6FallbackNotNearest` shows. What is proved is narrower:
  - where a branch clamps onto the side `t = 0` or `s = 0`, the result is the nearest among the points of that side (`Edge0ClampIsNearest`, `Edge1ClampIsNearest`), not among all points of the triangle;
  - in the interior branch, the result is the orthogonal projection of the query onto the triangle's plane (`InteriorIsProjection`); that it is the nearest point is not proved.
- The far-side branches (lines 89-96, 102-106, 111-116) are not proved nearest in any sense.
- Non-degeneracy is a precondition of both geometric routines and of every stored triangle, because the source divides without checking. Walk and Cross also require `Usable` of the walk point's triangle. That already follows from `OnMesh` through `OnMeshUsable`, but a postcondition can only use what the precondition states.
- `oppo_vertex` (lines 209, 215, 221, 227) is assigned but never read, so it is not modelled.
- The corner fix also runs when `t >= 1`, where its result is unused. The model applies it there too and ignores the result.
- WalkMeshes.WalkMesh.Walk: the branch without a crossing (lines 188-204) commits `barycoord` without testing it, because the loop tests the weights only while `t < 1`. It can therefore return weights below -0.0001 (`OvershootWalk`, with `OvershootTarget` for a triangle where this happens). That a zero step leaves the walk point unchanged is proved for weights that sum to 1 and are all above -0.0001. From weights that sum to 1 with one at or below -0.0001, the scan stops at `t = 0` and `walk` takes the crossing branch (`ZeroStepCrosses`). There the point moves into the neighbour across the selected edge when the map has one. When it has none, the slide of line 259 is by `0.02 * 0`, so the point stays as it was (`ZeroSlideStays`).
- Weights after sliding along a boundary edge (line 259) can leave [0, 1]. This is the source's behaviour and is stated as such.
- Vertex normals are stored but no modelled operation reads them. The `world_point` and `world_normal` accessors are not part of this model; `WorldPoint` is the barycentric blend of line 177.
- `GameMode.cpp`, `Spider.cpp`, `Spider.h` and `meshes/export-walkmeshes.py` are not part of this model. They handle rendering, input, a scene-object patrol and a Blender export script.
