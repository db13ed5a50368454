/**
 * Three-component vectors over the reals, standing in for the `glm::vec3`
 * arithmetic the walk mesh uses: sums, differences, scaling, dot products,
 * barycentric blends and `glm::clamp` to [0, 1].
 */
module Vectors {

  /** A point or direction in space, with real coordinates in place of floats. */
  datatype Vec3 = Vec3(x: real, y: real, z: real)

  const Zero: Vec3 := Vec3(0.0, 0.0, 0.0)

  /** Component-wise sum. */
  function Add(u: Vec3, v: Vec3): Vec3 {
    Vec3(u.x + v.x, u.y + v.y, u.z + v.z)
  }

  /** Component-wise difference. */
  function Sub(u: Vec3, v: Vec3): Vec3 {
    Vec3(u.x - v.x, u.y - v.y, u.z - v.z)
  }

  /** `v` scaled by `k`. */
  function Scale(k: real, v: Vec3): Vec3 {
    Vec3(k * v.x, k * v.y, k * v.z)
  }

  /** The dot product. */
  function Dot(u: Vec3, v: Vec3): real {
    u.x * v.x + u.y * v.y + u.z * v.z
  }

  /** Sum of the three components of a weight triple. */
  function Total(w: Vec3): real {
    w.x + w.y + w.z
  }

  /** `pa * w.x + pb * w.y + pc * w.z`: the point with weights `w` on the corners. */
  function Blend(w: Vec3, pa: Vec3, pb: Vec3, pc: Vec3): Vec3 {
    Add(Add(Scale(w.x, pa), Scale(w.y, pb)), Scale(w.z, pc))
  }

  /** Squared Euclidean distance. */
  function DistSq(p: Vec3, q: Vec3): real {
    Dot(Sub(p, q), Sub(p, q))
  }

  /** `glm::clamp(x, 0, 1)`, that is `min(max(x, 0), 1)`. */
  function Clamp01(x: real): (r: real)
    ensures 0.0 <= r <= 1.0
    ensures 0.0 <= x <= 1.0 ==> r == x
  {
    if x < 0.0 then 0.0 else if x > 1.0 then 1.0 else x
  }

  /** Adding the difference `v - u` to `u` gives `v`. */
  lemma AddDifference(u: Vec3, v: Vec3)
    ensures Add(u, Sub(v, u)) == v
  {
  }

  /** Dot product is symmetric. */
  lemma DotSymmetric(u: Vec3, v: Vec3)
    ensures Dot(u, v) == Dot(v, u)
  {
  }

  /** Scaling the second argument scales the dot product. */
  lemma DotScale(u: Vec3, k: real, v: Vec3)
    ensures Dot(u, Scale(k, v)) == k * Dot(u, v)
  {
    assert u.x * (k * v.x) + u.y * (k * v.y) + u.z * (k * v.z) == k * (u.x * v.x + u.y * v.y + u.z * v.z);
  }

  /** `|u + v|^2 = |u|^2 + 2 u.v + |v|^2`. */
  lemma SquareOfSum(u: Vec3, v: Vec3)
    ensures Dot(Add(u, v), Add(u, v)) == Dot(u, u) + 2.0 * Dot(u, v) + Dot(v, v)
  {
    SquareOfSumScalar(u.x, v.x);
    SquareOfSumScalar(u.y, v.y);
    SquareOfSumScalar(u.z, v.z);
  }

  /** `(a + b)^2 = a^2 + 2ab + b^2` on reals. */
  lemma SquareOfSumScalar(a: real, b: real)
    ensures (a + b) * (a + b) == a * a + 2.0 * (a * b) + b * b
  {
  }

  /** Dot product is linear in its first argument. */
  lemma DotCombination(s: real, u: Vec3, t: real, v: Vec3, w: Vec3)
    ensures Dot(Add(Scale(s, u), Scale(t, v)), w) == s * Dot(u, w) + t * Dot(v, w)
  {
  }
}
