/**
 * The two free functions of the walk mesh that work on a single triangle:
 * the closest point of a triangle to a query point (the seven-region case
 * analysis after Eberly's "Distance Between Point and Triangle in 3D") and
 * the barycentric coordinates of a point (Cramer's rule, after Ericson's
 * "Real-Time Collision Detection").
 */
module TriangleGeometry {
  import opened Vectors

  /**
   * The coefficients `a, b, c, d, e` of closestPointOnTriangle: with
   * `edge0 = vb - va`, `edge1 = vc - va`, `v0 = va - q`, the squared distance
   * from `q` to `va + s * edge0 + t * edge1` is
   * `a s^2 + 2 b s t + c t^2 + 2 d s + 2 e t + |v0|^2`.
   */
  datatype Coeffs = Coeffs(a: real, b: real, c: real, d: real, e: real) {
    /** `det`, the Gram determinant of the two sides (line 62). */
    function Det(): real { a * c - b * b }
    /** `s` before the division by `det` (line 63). */
    function SNum(): real { b * e - c * d }
    /** `t` before the division by `det` (line 64). */
    function TNum(): real { b * d - a * e }
  }

  /** The coefficients `a` to `e` that `closestPointOnTriangle` computes from the corners and the query point (lines 52-60). */
  function CoeffsOf(va: Vec3, vb: Vec3, vc: Vec3, q: Vec3): Coeffs {
    var edge0 := Sub(vb, va);
    var edge1 := Sub(vc, va);
    var v0 := Sub(va, q);
    Coeffs(Dot(edge0, edge0), Dot(edge0, edge1), Dot(edge1, edge1), Dot(edge0, v0), Dot(edge1, v0))
  }

  /**
   * `d00 * d11 - d01 * d01` (equally `a * c - b * b`): the Gram determinant
   * of the two edges at `va`, four times the squared area of the triangle.
   */
  function GramDet(va: Vec3, vb: Vec3, vc: Vec3): real {
    var edge0 := Sub(vb, va);
    var edge1 := Sub(vc, va);
    Dot(edge0, edge0) * Dot(edge1, edge1) - Dot(edge0, edge1) * Dot(edge0, edge1)
  }

  /**
   * Everything the two routines divide by is positive: the squared lengths
   * `a`, `c` and `a - 2b + c` of the three sides, and the Gram determinant
   * `det`. Neither routine checks this.
   */
  predicate NonDegenerate(va: Vec3, vb: Vec3, vc: Vec3) {
    var edge0 := Sub(vb, va);
    var edge1 := Sub(vc, va);
    DivisorsPositive(Dot(edge0, edge0), Dot(edge0, edge1), Dot(edge1, edge1), GramDet(va, vb, vc))
  }

  /** The divisors of the case analysis are positive for every query once the triangle is non-degenerate. */
  lemma CoeffsDivisorsPositive(va: Vec3, vb: Vec3, vc: Vec3, q: Vec3)
    requires NonDegenerate(va, vb, vc)
    ensures var k := CoeffsOf(va, vb, vc, q); DivisorsPositive(k.a, k.b, k.c, k.Det())
  {
  }

  /**
   * The divisors `a`, `c`, `a - 2b + c` and `det` of the case analysis are
   * positive. With `det == a * c - b * b`, the third already follows from
   * the others (`ThirdSidePositive`); it is kept as its own conjunct
   * because lines 95, 105 and 114 divide by it.
   */
  predicate DivisorsPositive(a: real, b: real, c: real, det: real) {
    a > 0.0 && c > 0.0 && a - 2.0 * b + c > 0.0 && det > 0.0
  }

  /** Positive `a`, `c` and `a * c - b * b` make `a - 2b + c` positive. */
  lemma ThirdSidePositive(a: real, b: real, c: real)
    requires a > 0.0 && c > 0.0 && a * c - b * b > 0.0
    ensures a - 2.0 * b + c > 0.0
  {
    if a - 2.0 * b + c <= 0.0 {
      var m := a + c;
      assert 0.0 < m <= 2.0 * b;
      assert m * m <= (2.0 * b) * (2.0 * b) by {
        MulMonotone(m, 2.0 * b, m);
        MulMonotone(m, 2.0 * b, 2.0 * b);
      }
      assert false;
    }
  }

  /** `0 <= p <= q` and `r >= 0` give `p * r <= q * r`. */
  lemma MulMonotone(p: real, q: real, r: real)
    requires 0.0 <= p <= q && r >= 0.0
    ensures p * r <= q * r
  {
    assert q * r - p * r == (q - p) * r;
  }

  /** Triangle parameters: the point `va + s * edge0 + t * edge1`. */
  datatype Params = Params(s: real, t: real)

  /** The parameters name a point of the closed triangle. */
  predicate OnTriangle(p: Params) {
    p.s >= 0.0 && p.t >= 0.0 && p.s + p.t <= 1.0
  }

  /** Weights that are all in [0, 1] and sum to 1. */
  predicate InSimplex(w: Vec3) {
    0.0 <= w.x <= 1.0 && 0.0 <= w.y <= 1.0 && 0.0 <= w.z <= 1.0 && Total(w) == 1.0
  }

  /** `va + s * edge0 + t * edge1` (line 119). */
  function PointAt(va: Vec3, vb: Vec3, vc: Vec3, p: Params): Vec3 {
    Add(Add(va, Scale(p.s, Sub(vb, va))), Scale(p.t, Sub(vc, va)))
  }

  /** Dividing interior numerators `s`, `t` (with `s + t < det`) by `det` gives parameters on the closed triangle. */
  lemma InteriorScaling(s: real, t: real, det: real)
    requires det > 0.0 && s >= 0.0 && t >= 0.0 && s + t < det
    ensures OnTriangle(Params(s * (1.0 / det), t * (1.0 / det)))
  {
    var inv := 1.0 / det;
    assert inv > 0.0;
    assert (s + t) * inv < det * inv;
  }

  /**
   * The branch structure of closestPointOnTriangle (lines 66-117) on its
   * local values `a, b, c, d, e, det` and the numerators `s, t`, giving the
   * parameters it settles on. The fallback of the region where
   * `s + t >= det`, `s >= 0` and `t < 0` (line 108) clamps `-e/c` into `s`,
   * as the source does.
   */
  function SolveRegion(a: real, b: real, c: real, d: real, e: real, det: real, s: real, t: real): (p: Params)
    requires DivisorsPositive(a, b, c, det)
    ensures OnTriangle(p)
  {
    if s + t < det then
      if s < 0.0 then
        if t < 0.0 then
          if d < 0.0 then Params(Clamp01(-d / a), 0.0)
          else Params(0.0, Clamp01(-e / c))
        else Params(0.0, Clamp01(-e / c))
      else if t < 0.0 then Params(Clamp01(-d / a), 0.0)
      else
        InteriorScaling(s, t, det);
        Params(s * (1.0 / det), t * (1.0 / det))
    else
      if s < 0.0 then
        var tmp0 := b + d;
        var tmp1 := c + e;
        if tmp1 > tmp0 then
          var s' := Clamp01((tmp1 - tmp0) / (a - 2.0 * b + c));
          Params(s', 1.0 - s')
        else Params(0.0, Clamp01(-e / c))
      else if t < 0.0 then
        if a + d > b + e then
          var s' := Clamp01((c + e - b - d) / (a - 2.0 * b + c));
          Params(s', 1.0 - s')
        else Params(Clamp01(-e / c), 0.0)
      else
        var s' := Clamp01((c + e - b - d) / (a - 2.0 * b + c));
        Params(s', 1.0 - s')
  }

  /** The parameters `(s, t)` that the case analysis of lines 62-117 picks for `q`; they lie on the closed triangle. */
  function ClosestParams(va: Vec3, vb: Vec3, vc: Vec3, q: Vec3): (p: Params)
    requires NonDegenerate(va, vb, vc)
    ensures OnTriangle(p)
  {
    var k := CoeffsOf(va, vb, vc, q);
    CoeffsDivisorsPositive(va, vb, vc, q);
    SolveRegion(k.a, k.b, k.c, k.d, k.e, k.Det(), k.SNum(), k.TNum())
  }

  /**
   * closestPointOnTriangle (lines 50-120): a point of the closed triangle,
   * that is, the blend of the corners by its own barycentric coordinates,
   * which are all in [0, 1].
   */
  function ClosestPointOnTriangle(va: Vec3, vb: Vec3, vc: Vec3, q: Vec3): (r: Vec3)
    requires NonDegenerate(va, vb, vc)
    ensures InSimplex(Barycentric(va, vb, vc, r))
    ensures Blend(Barycentric(va, vb, vc, r), va, vb, vc) == r
  {
    var p := ClosestParams(va, vb, vc, q);
    BarycentricOfPointAt(va, vb, vc, p);
    BlendOfParams(va, vb, vc, p);
    PointAt(va, vb, vc, p)
  }

  /**
   * calculate_barycentric_coord (lines 125-143): `v` and `w` by Cramer's rule
   * on the 2x2 Gram system, and `u = 1 - v - w`, so the three always sum to 1.
   */
  function Barycentric(va: Vec3, vb: Vec3, vc: Vec3, point: Vec3): (r: Vec3)
    requires GramDet(va, vb, vc) != 0.0
    ensures Total(r) == 1.0
  {
    var edge0 := Sub(vb, va);
    var edge1 := Sub(vc, va);
    var v0 := Sub(point, va);
    var d00 := Dot(edge0, edge0);
    var d01 := Dot(edge0, edge1);
    var d11 := Dot(edge1, edge1);
    var d20 := Dot(v0, edge0);
    var d21 := Dot(v0, edge1);
    CramerWeights(d00, d01, d11, d20, d21)
  }

  /** Lines 137-141: `v` and `w` by Cramer's rule on the Gram system, then `u = 1 - v - w`. */
  function CramerWeights(d00: real, d01: real, d11: real, d20: real, d21: real): (r: Vec3)
    requires d00 * d11 - d01 * d01 != 0.0
    ensures Total(r) == 1.0
  {
    var denom := d00 * d11 - d01 * d01;
    var v := (d11 * d20 - d01 * d21) / denom;
    var w := (d00 * d21 - d01 * d20) / denom;
    Vec3(1.0 - v - w, v, w)
  }

  /** Cramer's rule recovers the coefficients of a combination of the edges. */
  lemma CramerSolves(d00: real, d01: real, d11: real, d20: real, d21: real, s: real, t: real)
    requires d00 * d11 - d01 * d01 != 0.0
    requires d20 == s * d00 + t * d01 && d21 == s * d01 + t * d11
    ensures CramerWeights(d00, d01, d11, d20, d21) == Vec3(1.0 - s - t, s, t)
  {
    var denom := d00 * d11 - d01 * d01;
    assert d11 * d20 - d01 * d21 == s * denom;
    assert d00 * d21 - d01 * d20 == t * denom;
  }

  /**
   * Round trip: the barycentric coordinates of `va + s * edge0 + t * edge1`
   * are exactly `(1 - s - t, s, t)`.
   */
  lemma BarycentricOfPointAt(va: Vec3, vb: Vec3, vc: Vec3, p: Params)
    requires GramDet(va, vb, vc) != 0.0
    ensures Barycentric(va, vb, vc, PointAt(va, vb, vc, p)) == Vec3(1.0 - p.s - p.t, p.s, p.t)
  {
    var edge0 := Sub(vb, va);
    var edge1 := Sub(vc, va);
    CornerOffset(va, Sub(vb, va), Sub(vc, va), p.s, p.t);
    BarycentricOfOffset(va, vb, vc, PointAt(va, vb, vc, p), p);
  }

  /** `(a + s * e0 + t * e1) - a` is `s * e0 + t * e1`. */
  lemma CornerOffset(a: Vec3, e0: Vec3, e1: Vec3, s: real, t: real)
    ensures Sub(Add(Add(a, Scale(s, e0)), Scale(t, e1)), a) == Add(Scale(s, e0), Scale(t, e1))
  {
  }

  /** The barycentric coordinates of a point `q` with `q - va == s * edge0 + t * edge1` are `(1 - s - t, s, t)`. */
  lemma BarycentricOfOffset(va: Vec3, vb: Vec3, vc: Vec3, q: Vec3, p: Params)
    requires GramDet(va, vb, vc) != 0.0
    requires Sub(q, va) == Add(Scale(p.s, Sub(vb, va)), Scale(p.t, Sub(vc, va)))
    ensures Barycentric(va, vb, vc, q) == Vec3(1.0 - p.s - p.t, p.s, p.t)
  {
    CramerOfCombination(Sub(vb, va), Sub(vc, va), Sub(q, va), p);
  }

  /** Cramer's rule on the Gram system of `e0`, `e1` recovers `(s, t)` from `w == s * e0 + t * e1`. */
  lemma CramerOfCombination(e0: Vec3, e1: Vec3, w: Vec3, p: Params)
    requires Dot(e0, e0) * Dot(e1, e1) - Dot(e0, e1) * Dot(e0, e1) != 0.0
    requires w == Add(Scale(p.s, e0), Scale(p.t, e1))
    ensures CramerWeights(Dot(e0, e0), Dot(e0, e1), Dot(e1, e1), Dot(w, e0), Dot(w, e1)) == Vec3(1.0 - p.s - p.t, p.s, p.t)
  {
    DotSymmetric(e1, e0);
    DotOfCombination(e0, e1, e0, p.s, p.t, Dot(e0, e0), Dot(e0, e1), w);
    DotOfCombination(e0, e1, e1, p.s, p.t, Dot(e0, e1), Dot(e1, e1), w);
    CramerSolves(Dot(e0, e0), Dot(e0, e1), Dot(e1, e1), Dot(w, e0), Dot(w, e1), p.s, p.t);
  }

  /** `x . w` is `s * du + t * dv` when `x` is `s * u + t * v` and `du`, `dv` are `u . w`, `v . w`. */
  lemma DotOfCombination(u: Vec3, v: Vec3, w: Vec3, s: real, t: real, du: real, dv: real, x: Vec3)
    requires x == Add(Scale(s, u), Scale(t, v))
    requires du == Dot(u, w) && dv == Dot(v, w)
    ensures Dot(x, w) == s * du + t * dv
  {
    DotCombination(s, u, t, v, w);
    SumCoeffs(Dot(x, w), s, t, Dot(u, w), Dot(v, w), du, dv);
  }

  /** The blend of the weights `(1 - s - t, s, t)` is the point `va + s * edge0 + t * edge1`. */
  lemma BlendOfParams(va: Vec3, vb: Vec3, vc: Vec3, p: Params)
    ensures Blend(Vec3(1.0 - p.s - p.t, p.s, p.t), va, vb, vc) == PointAt(va, vb, vc, p)
  {
  }

  /**
   * Round trip the other way: weights that sum to 1 are the barycentric
   * coordinates of their own blend.
   */
  lemma BarycentricOfBlend(va: Vec3, vb: Vec3, vc: Vec3, w: Vec3)
    requires GramDet(va, vb, vc) != 0.0
    requires Total(w) == 1.0
    ensures Barycentric(va, vb, vc, Blend(w, va, vb, vc)) == w
  {
    var p := Params(w.y, w.z);
    assert w == Vec3(1.0 - p.s - p.t, p.s, p.t);
    BlendOfParams(va, vb, vc, p);
    BarycentricOfPointAt(va, vb, vc, p);
  }

  /**
   * The converse for points of the triangle's plane: blending the
   * barycentric coordinates of `va + s * edge0 + t * edge1` gives it back.
   */
  lemma BlendOfBarycentric(va: Vec3, vb: Vec3, vc: Vec3, p: Params)
    requires GramDet(va, vb, vc) != 0.0
    ensures Blend(Barycentric(va, vb, vc, PointAt(va, vb, vc, p)), va, vb, vc) == PointAt(va, vb, vc, p)
  {
    BarycentricOfPointAt(va, vb, vc, p);
    BlendOfParams(va, vb, vc, p);
  }

  /** `(q - P) . w` for `P = va + s * edge0 + t * edge1`, expanded. */
  lemma ResidualDot(va: Vec3, vb: Vec3, vc: Vec3, q: Vec3, p: Params, w: Vec3)
    ensures Dot(Sub(q, PointAt(va, vb, vc, p)), w)
         == -Dot(w, Sub(va, q)) - p.s * Dot(Sub(vb, va), w) - p.t * Dot(Sub(vc, va), w)
  {
    ResidualOffset(va, q, Sub(vb, va), Sub(vc, va), p.s, p.t);
    ResidualAt(va, q, Sub(vb, va), Sub(vc, va), p.s, p.t, PointAt(va, vb, vc, p), w);
  }

  /** `(q - P) . w` for a point `P` with `q - P == (q - a) - (s * e0 + t * e1)`, expanded. */
  lemma ResidualAt(a: Vec3, q: Vec3, e0: Vec3, e1: Vec3, s: real, t: real, point: Vec3, w: Vec3)
    requires Sub(q, point) == Sub(Sub(q, a), Add(Scale(s, e0), Scale(t, e1)))
    ensures Dot(Sub(q, point), w) == -Dot(w, Sub(a, q)) - s * Dot(e0, w) - t * Dot(e1, w)
  {
    DotOfResidual(Sub(q, a), e0, e1, w, s, t, Sub(q, point));
    DotReversed(a, q, w);
    NegateLead(Dot(Sub(q, point), w), Dot(Sub(q, a), w), Dot(w, Sub(a, q)), s * Dot(e0, w), t * Dot(e1, w));
  }

  /** `q - (a + s * e0 + t * e1)` is `(q - a) - (s * e0 + t * e1)`. */
  lemma ResidualOffset(a: Vec3, q: Vec3, e0: Vec3, e1: Vec3, s: real, t: real)
    ensures Sub(q, Add(Add(a, Scale(s, e0)), Scale(t, e1))) == Sub(Sub(q, a), Add(Scale(s, e0), Scale(t, e1)))
  {
  }

  /** `(u - (s * e0 + t * e1)) . w` expanded. */
  lemma DotOfResidual(u: Vec3, e0: Vec3, e1: Vec3, w: Vec3, s: real, t: real, x: Vec3)
    requires x == Sub(u, Add(Scale(s, e0), Scale(t, e1)))
    ensures Dot(x, w) == Dot(u, w) - s * Dot(e0, w) - t * Dot(e1, w)
  {
  }

  /** `(q - a) . w == -(w . (a - q))`. */
  lemma DotReversed(a: Vec3, q: Vec3, w: Vec3)
    ensures Dot(Sub(q, a), w) == -Dot(w, Sub(a, q))
  {
  }

  /** The interior solution `s = SNum/det`, `t = TNum/det` zeroes both partial derivatives. */
  lemma InteriorStationary(k: Coeffs, s: real, t: real)
    requires k.Det() != 0.0
    requires s == k.SNum() * (1.0 / k.Det()) && t == k.TNum() * (1.0 / k.Det())
    ensures s * k.a + t * k.b == -k.d
    ensures s * k.b + t * k.c == -k.e
  {
    var inv := 1.0 / k.Det();
    assert k.SNum() * k.a + k.TNum() * k.b == -k.d * k.Det();
    assert k.SNum() * k.b + k.TNum() * k.c == -k.e * k.Det();
    assert s * k.a + t * k.b == (k.SNum() * k.a + k.TNum() * k.b) * inv;
    assert s * k.b + t * k.c == (k.SNum() * k.b + k.TNum() * k.c) * inv;
  }

  /**
   * When the unconstrained minimiser lies inside the triangle (the branch of
   * lines 84-86), the result is the orthogonal projection of `q` onto the
   * triangle's plane: `q - P` is orthogonal to both edges.
   */
  lemma InteriorIsProjection(va: Vec3, vb: Vec3, vc: Vec3, q: Vec3)
    requires NonDegenerate(va, vb, vc)
    requires var k := CoeffsOf(va, vb, vc, q);
      k.SNum() >= 0.0 && k.TNum() >= 0.0 && k.SNum() + k.TNum() < k.Det()
    ensures Dot(Sub(q, ClosestPointOnTriangle(va, vb, vc, q)), Sub(vb, va)) == 0.0
    ensures Dot(Sub(q, ClosestPointOnTriangle(va, vb, vc, q)), Sub(vc, va)) == 0.0
  {
    var k := CoeffsOf(va, vb, vc, q);
    CoeffsDivisorsPositive(va, vb, vc, q);
    InteriorRegion(k);
    var p := InteriorSolution(k);
    assert ClosestParams(va, vb, vc, q) == p;
    ClosestIsPointAt(va, vb, vc, q);
    StationaryIsOrthogonal(va, vb, vc, q, k, p);
  }

  /** The interior branch (lines 84-86) of the case analysis on the coefficients `k`. */
  lemma InteriorRegion(k: Coeffs)
    requires DivisorsPositive(k.a, k.b, k.c, k.Det())
    requires k.SNum() >= 0.0 && k.TNum() >= 0.0 && k.SNum() + k.TNum() < k.Det()
    ensures SolveRegion(k.a, k.b, k.c, k.d, k.e, k.Det(), k.SNum(), k.TNum())
      == Params(k.SNum() * (1.0 / k.Det()), k.TNum() * (1.0 / k.Det()))
  {
    InteriorBranch(k.a, k.b, k.c, k.d, k.e, k.Det(), k.SNum(), k.TNum());
  }

  /** In the interior branch the parameters are where both partial derivatives of the distance vanish. */
  lemma InteriorSolution(k: Coeffs) returns (p: Params)
    requires k.Det() != 0.0
    ensures p == Params(k.SNum() * (1.0 / k.Det()), k.TNum() * (1.0 / k.Det()))
    ensures p.s * k.a + p.t * k.b == -k.d && p.s * k.b + p.t * k.c == -k.e
  {
    p := Params(k.SNum() * (1.0 / k.Det()), k.TNum() * (1.0 / k.Det()));
    InteriorStationary(k, p.s, p.t);
  }

  /** A point of the plane where both partial derivatives vanish leaves a residual orthogonal to both edges. */
  lemma StationaryIsOrthogonal(va: Vec3, vb: Vec3, vc: Vec3, q: Vec3, k: Coeffs, p: Params)
    requires k == CoeffsOf(va, vb, vc, q)
    requires p.s * k.a + p.t * k.b == -k.d && p.s * k.b + p.t * k.c == -k.e
    ensures Dot(Sub(q, PointAt(va, vb, vc, p)), Sub(vb, va)) == 0.0
    ensures Dot(Sub(q, PointAt(va, vb, vc, p)), Sub(vc, va)) == 0.0
  {
    var edge0, edge1 := Sub(vb, va), Sub(vc, va);
    assert Dot(edge0, Sub(va, q)) == k.d && Dot(edge1, Sub(va, q)) == k.e;
    assert Dot(edge0, edge0) == k.a && Dot(edge1, edge0) == k.b && Dot(edge1, edge1) == k.c;
    ResidualDot(va, vb, vc, q, p, edge0);
    ResidualDot(va, vb, vc, q, p, edge1);
  }

  /** The coefficients of a query point that lies in the triangle's plane. */
  lemma CoeffsOfPointAt(va: Vec3, vb: Vec3, vc: Vec3, p: Params, k: Coeffs)
    requires k == CoeffsOf(va, vb, vc, PointAt(va, vb, vc, p))
    ensures k.d == -(p.s * k.a + p.t * k.b)
    ensures k.e == -(p.s * k.b + p.t * k.c)
  {
    PlaneOffset(va, Sub(vb, va), Sub(vc, va), p.s, p.t);
    FirstCoeffOfOffset(va, vb, vc, PointAt(va, vb, vc, p), p, k);
    SecondCoeffOfOffset(va, vb, vc, PointAt(va, vb, vc, p), p, k);
  }

  /** The coefficient `d` of a query `q` with `va - q == -(s * edge0 + t * edge1)`. */
  lemma FirstCoeffOfOffset(va: Vec3, vb: Vec3, vc: Vec3, q: Vec3, p: Params, k: Coeffs)
    requires k == CoeffsOf(va, vb, vc, q)
    requires Sub(va, q) == Scale(-1.0, Add(Scale(p.s, Sub(vb, va)), Scale(p.t, Sub(vc, va))))
    ensures k.d == -(p.s * k.a + p.t * k.b)
  {
    DotOfPlaneOffset(Sub(vb, va), Sub(vb, va), Sub(vc, va), p.s, p.t, k.a, k.b, Sub(va, q));
  }

  /** The coefficient `e` of a query `q` with `va - q == -(s * edge0 + t * edge1)`. */
  lemma SecondCoeffOfOffset(va: Vec3, vb: Vec3, vc: Vec3, q: Vec3, p: Params, k: Coeffs)
    requires k == CoeffsOf(va, vb, vc, q)
    requires Sub(va, q) == Scale(-1.0, Add(Scale(p.s, Sub(vb, va)), Scale(p.t, Sub(vc, va))))
    ensures k.e == -(p.s * k.b + p.t * k.c)
  {
    DotSymmetric(Sub(vc, va), Sub(vb, va));
    DotOfPlaneOffset(Sub(vc, va), Sub(vb, va), Sub(vc, va), p.s, p.t, k.b, k.c, Sub(va, q));
  }

  /** `a - (a + s * e0 + t * e1)` is `-(s * e0 + t * e1)`. */
  lemma PlaneOffset(a: Vec3, e0: Vec3, e1: Vec3, s: real, t: real)
    ensures Sub(a, Add(Add(a, Scale(s, e0)), Scale(t, e1))) == Scale(-1.0, Add(Scale(s, e0), Scale(t, e1)))
  {
  }

  /** `e . w` is `-(s * du + t * dv)` when `w` is `-(s * u + t * v)` and `du`, `dv` are `e . u`, `e . v`. */
  lemma DotOfPlaneOffset(e: Vec3, u: Vec3, v: Vec3, s: real, t: real, du: real, dv: real, w: Vec3)
    requires du == Dot(e, u) && dv == Dot(e, v)
    requires w == Scale(-1.0, Add(Scale(s, u), Scale(t, v)))
    ensures Dot(e, w) == -(s * du + t * dv)
  {
    DotNegCombination(e, u, v, s, t);
    CombinationCoeffs(Dot(e, w), s, t, Dot(e, u), Dot(e, v), du, dv);
  }

  /** `e . -(s * u + t * v) == -(s * (e . u) + t * (e . v))`. */
  lemma DotNegCombination(e: Vec3, u: Vec3, v: Vec3, s: real, t: real)
    ensures Dot(e, Scale(-1.0, Add(Scale(s, u), Scale(t, v)))) == -(s * Dot(e, u) + t * Dot(e, v))
  {
  }

  /** The numerators of a point `(s, t)` of the triangle's own plane are `s * det` and `t * det`. */
  lemma NumeratorsOfPlanePoint(k: Coeffs, p: Params)
    requires k.d == -(p.s * k.a + p.t * k.b) && k.e == -(p.s * k.b + p.t * k.c)
    ensures k.SNum() == p.s * k.Det() && k.TNum() == p.t * k.Det()
  {
  }

  /** Numerators `s * det`, `t * det` of an interior point satisfy the interior test of line 66 and divide back to `s`, `t`. */
  lemma InteriorFacts(sn: real, tn: real, det: real, s: real, t: real)
    requires det > 0.0 && s >= 0.0 && t >= 0.0 && s + t < 1.0
    requires sn == s * det && tn == t * det
    ensures sn >= 0.0 && tn >= 0.0 && sn + tn < det
    ensures sn * (1.0 / det) == s && tn * (1.0 / det) == t
  {
    assert (1.0 - s - t) * det > 0.0;
  }

  /** Numerators `s * det`, `t * det` of a point on the far side `s + t == 1` fail the interior test of line 66 and sum to `det`. */
  lemma FarEdgeFacts(sn: real, tn: real, det: real, s: real, t: real)
    requires det > 0.0 && s >= 0.0 && t >= 0.0 && s + t == 1.0
    requires sn == s * det && tn == t * det
    ensures sn >= 0.0 && tn >= 0.0 && sn + tn == det
  {
  }

  /** For a plane point on the far side, the quotient clamped at line 114 is its own `s`. */
  lemma FarEdgeNumerator(k: Coeffs, p: Params)
    requires p.s + p.t == 1.0
    requires k.d == -(p.s * k.a + p.t * k.b) && k.e == -(p.s * k.b + p.t * k.c)
    requires k.a - 2.0 * k.b + k.c != 0.0
    ensures (k.c + k.e - k.b - k.d) / (k.a - 2.0 * k.b + k.c) == p.s
  {
    assert k.c + k.e - k.b - k.d == p.s * (k.a - 2.0 * k.b + k.c);
  }

  /**
   * For a point `(s, t)` of the triangle's own plane, the case analysis
   * returns `(s, t)` when that point is on the closed triangle.
   */
  lemma SolveRegionOnTriangle(k: Coeffs, p: Params)
    requires DivisorsPositive(k.a, k.b, k.c, k.Det())
    requires OnTriangle(p)
    requires k.d == -(p.s * k.a + p.t * k.b) && k.e == -(p.s * k.b + p.t * k.c)
    ensures SolveRegion(k.a, k.b, k.c, k.d, k.e, k.Det(), k.SNum(), k.TNum()) == p
  {
    NumeratorsOfPlanePoint(k, p);
    if p.s + p.t == 1.0 {
      FarEdgeNumerator(k, p);
    }
    SolveRegionAtPlanePoint(k.a, k.b, k.c, k.d, k.e, k.Det(), k.SNum(), k.TNum(), p);
  }

  /** The case analysis on the numerators of a plane point of the closed triangle returns that point. */
  lemma SolveRegionAtPlanePoint(a: real, b: real, c: real, d: real, e: real, det: real, sn: real, tn: real, p: Params)
    requires DivisorsPositive(a, b, c, det)
    requires OnTriangle(p)
    requires sn == p.s * det && tn == p.t * det
    requires p.s + p.t == 1.0 ==> (c + e - b - d) / (a - 2.0 * b + c) == p.s
    ensures SolveRegion(a, b, c, d, e, det, sn, tn) == p
  {
    if p.s + p.t < 1.0 {
      InteriorFacts(sn, tn, det, p.s, p.t);
      InteriorBranch(a, b, c, d, e, det, sn, tn);
    } else {
      FarEdgeFacts(sn, tn, det, p.s, p.t);
      FarEdgeBranch(a, b, c, d, e, det, sn, tn);
    }
  }

  /** The interior branch (lines 84-86): non-negative numerators with `s + t < det` are divided by `det`. */
  lemma InteriorBranch(a: real, b: real, c: real, d: real, e: real, det: real, s: real, t: real)
    requires DivisorsPositive(a, b, c, det)
    requires s >= 0.0 && t >= 0.0 && s + t < det
    ensures SolveRegion(a, b, c, d, e, det, s, t) == Params(s * (1.0 / det), t * (1.0 / det))
  {
  }

  /** The far-side branch (lines 111-116): non-negative numerators with `s + t >= det` are clamped onto the side `s + t == 1`. */
  lemma FarEdgeBranch(a: real, b: real, c: real, d: real, e: real, det: real, s: real, t: real)
    requires DivisorsPositive(a, b, c, det)
    requires s >= 0.0 && t >= 0.0 && s + t >= det
    ensures var s' := Clamp01((c + e - b - d) / (a - 2.0 * b + c));
      SolveRegion(a, b, c, d, e, det, s, t) == Params(s', 1.0 - s')
  {
  }

  /**
   * A query point that already lies on the closed triangle is returned
   * unchanged, whichever branch it reaches (interior or the far edge).
   */
  lemma ClosestOfPointOnTriangle(va: Vec3, vb: Vec3, vc: Vec3, p: Params)
    requires NonDegenerate(va, vb, vc)
    requires OnTriangle(p)
    ensures ClosestPointOnTriangle(va, vb, vc, PointAt(va, vb, vc, p)) == PointAt(va, vb, vc, p)
  {
    PlaneOffset(va, Sub(vb, va), Sub(vc, va), p.s, p.t);
    ClosestOfPlanePoint(va, vb, vc, PointAt(va, vb, vc, p), p);
  }

  /** A query `q` with `va - q == -(s * edge0 + t * edge1)` for `(s, t)` on the closed triangle is sent to `PointAt(p)`. */
  lemma ClosestOfPlanePoint(va: Vec3, vb: Vec3, vc: Vec3, q: Vec3, p: Params)
    requires NonDegenerate(va, vb, vc)
    requires OnTriangle(p)
    requires Sub(va, q) == Scale(-1.0, Add(Scale(p.s, Sub(vb, va)), Scale(p.t, Sub(vc, va))))
    ensures ClosestPointOnTriangle(va, vb, vc, q) == PointAt(va, vb, vc, p)
  {
    var k := CoeffsOf(va, vb, vc, q);
    FirstCoeffOfOffset(va, vb, vc, q, p, k);
    SecondCoeffOfOffset(va, vb, vc, q, p, k);
    CoeffsDivisorsPositive(va, vb, vc, q);
    SolveRegionOnTriangle(k, p);
    ClosestIsPointAt(va, vb, vc, q);
  }

  /** The side coefficients of the triangle read from its second corner. */
  lemma RotatedSides(va: Vec3, vb: Vec3, vc: Vec3)
    ensures var k, r := CoeffsOf(va, vb, vc, va), CoeffsOf(vb, vc, va, vb);
      && r.a == k.a - 2.0 * k.b + k.c
      && r.b == k.a - k.b
      && r.c == k.a
  {
  }

  /** The divisors stay positive when the triangle is read from its second corner. */
  lemma RotatedDivisors(a: real, b: real, c: real, a': real, b': real, c': real)
    requires a' == a - 2.0 * b + c && b' == a - b && c' == a
    requires DivisorsPositive(a, b, c, a * c - b * b)
    ensures DivisorsPositive(a', b', c', a' * c' - b' * b')
  {
    assert a' - 2.0 * b' + c' == c;
    assert a' * c' - b' * b' == a * c - b * b;
  }

  /**
   * Non-degeneracy does not depend on which corner a triangle is read from:
   * a cyclic rotation permutes the three squared side lengths and keeps the
   * Gram determinant.
   */
  lemma NonDegenerateRotation(va: Vec3, vb: Vec3, vc: Vec3)
    requires NonDegenerate(va, vb, vc)
    ensures NonDegenerate(vb, vc, va)
  {
    var k, r := CoeffsOf(va, vb, vc, va), CoeffsOf(vb, vc, va, vb);
    RotatedSides(va, vb, vc);
    CoeffsDivisorsPositive(va, vb, vc, va);
    RotatedDivisors(k.a, k.b, k.c, r.a, r.b, r.c);
    assert GramDet(vb, vc, va) == r.a * r.c - r.b * r.b;
  }

  /** `|q - (va + s * edge0)|^2` as a quadratic in `s`. */
  lemma DistanceAlongEdge0(va: Vec3, vb: Vec3, vc: Vec3, q: Vec3, s: real, k: Coeffs)
    requires k == CoeffsOf(va, vb, vc, q)
    ensures DistSq(PointAt(va, vb, vc, Params(s, 0.0)), q) == Dot(Sub(va, q), Sub(va, q)) + (2.0 * s * k.d + s * s * k.a)
  {
    OffsetFromCorner(va, q, Scale(s, Sub(vb, va)), Sub(vc, va));
    SideDistance(PointAt(va, vb, vc, Params(s, 0.0)), q, Sub(va, q), Sub(vb, va), s, k.d, k.a);
  }

  /** A point `p` with `p - q == v0 + s * e` lies at squared distance `|v0|^2 + 2 s d + s^2 sq` from `q`. */
  lemma SideDistance(p: Vec3, q: Vec3, v0: Vec3, e: Vec3, s: real, d: real, sq: real)
    requires Sub(p, q) == Add(v0, Scale(s, e))
    requires d == Dot(e, v0) && sq == Dot(e, e)
    ensures DistSq(p, q) == Dot(v0, v0) + (2.0 * s * d + s * s * sq)
  {
    QuadraticAlong(v0, e, s);
    QuadraticCoeffs(DistSq(p, q), Dot(v0, v0), s, Dot(e, v0), Dot(e, e), d, sq);
  }

  /** `(a + u + 0 * e) - q` and `(a + 0 * e + u) - q` are `(a - q) + u`: a point on a side, seen from the query. */
  lemma OffsetFromCorner(a: Vec3, q: Vec3, u: Vec3, e: Vec3)
    ensures Sub(Add(Add(a, u), Scale(0.0, e)), q) == Add(Sub(a, q), u)
    ensures Sub(Add(Add(a, Scale(0.0, e)), u), q) == Add(Sub(a, q), u)
  {
  }

  /** `|v0 + s * e|^2` expanded as a quadratic in `s`. */
  lemma QuadraticAlong(v0: Vec3, e: Vec3, s: real)
    ensures Dot(Add(v0, Scale(s, e)), Add(v0, Scale(s, e))) == Dot(v0, v0) + (2.0 * s * Dot(e, v0) + s * s * Dot(e, e))
  {
    var u := Scale(s, e);
    SquareOfSum(v0, u);
    DotScale(v0, s, e);
    DotSymmetric(v0, e);
    DotScale(u, s, e);
    DotSymmetric(u, e);
    DotScale(e, s, e);
    QuadraticTerms(Dot(Add(v0, u), Add(v0, u)), Dot(v0, v0), Dot(v0, u), Dot(u, u), s, Dot(e, v0), Dot(e, e));
  }

  /** The product of two non-negative reals is non-negative. */
  lemma MulNonNegative(p: real, q: real)
    requires p >= 0.0 && q >= 0.0
    ensures p * q >= 0.0
  {
  }

  /** A square is non-negative. */
  lemma SquareNonNegative(p: real)
    ensures p * p >= 0.0
  {
    if p >= 0.0 {
      MulNonNegative(p, p);
    } else {
      MulNonNegative(-p, -p);
    }
  }

  /**
   * `(s - x)^2 >= (clamp(x, 0, 1) - x)^2` for every `s` in [0, 1]: the clamped
   * value is the point of [0, 1] nearest to `x`.
   */
  lemma ClampNearest(x: real, s: real)
    requires 0.0 <= s <= 1.0
    ensures var m := Clamp01(x); (s - x) * (s - x) >= (m - x) * (m - x)
  {
    var m := Clamp01(x);
    if x < 0.0 {
      assert (s - x) * (s - x) - (m - x) * (m - x) == s * (s - 2.0 * x);
      MulNonNegative(s, s - 2.0 * x);
    } else if x > 1.0 {
      assert (s - x) * (s - x) - (m - x) * (m - x) == (1.0 - s) * (2.0 * x - 1.0 - s);
      MulNonNegative(1.0 - s, 2.0 * x - 1.0 - s);
    } else {
      SquareNonNegative(s - x);
    }
  }

  /**
   * The clamped stationary point `clamp(-d/a, 0, 1)` minimises the quadratic
   * `a s^2 + 2 d s` over [0, 1] when `a > 0`.
   */
  lemma ClampMinimises(a: real, d: real, s: real)
    requires a > 0.0 && 0.0 <= s <= 1.0
    ensures var m := Clamp01(-d / a); 2.0 * m * d + m * m * a <= 2.0 * s * d + s * s * a
  {
    var x := -d / a;
    var m := Clamp01(x);
    assert d == -x * a;
    var g := (s - x) * (s - x) - (m - x) * (m - x);
    assert (2.0 * s * d + s * s * a) - (2.0 * m * d + m * m * a) == a * g;
    ClampNearest(x, s);
    MulNonNegative(a, g);
  }

  /** On the side `t = 0`, the parameter `clamp(-d/a, 0, 1)` gives the nearest point. */
  lemma Edge0ClampNearest(va: Vec3, vb: Vec3, vc: Vec3, q: Vec3, k: Coeffs, s: real)
    requires k == CoeffsOf(va, vb, vc, q) && k.a > 0.0
    requires 0.0 <= s <= 1.0
    ensures DistSq(PointAt(va, vb, vc, Params(Clamp01(-k.d / k.a), 0.0)), q) <= DistSq(PointAt(va, vb, vc, Params(s, 0.0)), q)
  {
    var edge0 := Sub(vb, va);
    OffsetFromCorner(va, q, Scale(Clamp01(-k.d / k.a), edge0), Sub(vc, va));
    OffsetFromCorner(va, q, Scale(s, edge0), Sub(vc, va));
    SideNearest(Sub(va, q), edge0, s);
  }

  /**
   * Along the line `v0 + s * e`, the parameter `clamp(-(e . v0)/(e . e), 0, 1)`
   * gives the point of `0 <= s <= 1` nearest to the origin.
   */
  lemma SideNearest(v0: Vec3, e: Vec3, s: real)
    requires Dot(e, e) > 0.0 && 0.0 <= s <= 1.0
    ensures var m := Clamp01(-Dot(e, v0) / Dot(e, e));
      Dot(Add(v0, Scale(m, e)), Add(v0, Scale(m, e))) <= Dot(Add(v0, Scale(s, e)), Add(v0, Scale(s, e)))
  {
    ClampMinimises(Dot(e, e), Dot(e, v0), s);
    QuadraticOrder(v0, e, Clamp01(-Dot(e, v0) / Dot(e, e)), s);
  }

  /** Parameters ordered by the quadratic `2 s d + s^2 a` give points ordered by distance. */
  lemma QuadraticOrder(v0: Vec3, e: Vec3, m: real, s: real)
    requires 2.0 * m * Dot(e, v0) + m * m * Dot(e, e) <= 2.0 * s * Dot(e, v0) + s * s * Dot(e, e)
    ensures Dot(Add(v0, Scale(m, e)), Add(v0, Scale(m, e))) <= Dot(Add(v0, Scale(s, e)), Add(v0, Scale(s, e)))
  {
    QuadraticAlong(v0, e, m);
    QuadraticAlong(v0, e, s);
  }

  /** The closest point is the point of the triangle at the parameters the case analysis picks. */
  lemma ClosestIsPointAt(va: Vec3, vb: Vec3, vc: Vec3, q: Vec3)
    requires NonDegenerate(va, vb, vc)
    ensures ClosestPointOnTriangle(va, vb, vc, q) == PointAt(va, vb, vc, ClosestParams(va, vb, vc, q))
  {
  }

  /** The two branches of the case analysis that clamp `-d/a` onto the side `t = 0`. */
  lemma SolveRegionEdge0(a: real, b: real, c: real, d: real, e: real, det: real, s: real, t: real)
    requires DivisorsPositive(a, b, c, det)
    requires s + t < det && t < 0.0 && (s < 0.0 ==> d < 0.0)
    ensures SolveRegion(a, b, c, d, e, det, s, t) == Params(Clamp01(-d / a), 0.0)
  {
  }

  /**
   * Where the case analysis settles on the side `t = 0` by clamping `-d/a`
   * (lines 69-71 and 80-82), the result is the nearest point of that side.
   */
  lemma Edge0ClampIsNearest(va: Vec3, vb: Vec3, vc: Vec3, q: Vec3, s: real)
    requires NonDegenerate(va, vb, vc)
    requires var k := CoeffsOf(va, vb, vc, q);
      k.SNum() + k.TNum() < k.Det() && k.TNum() < 0.0 && (k.SNum() < 0.0 ==> k.d < 0.0)
    requires 0.0 <= s <= 1.0
    ensures DistSq(ClosestPointOnTriangle(va, vb, vc, q), q) <= DistSq(PointAt(va, vb, vc, Params(s, 0.0)), q)
  {
    var k := CoeffsOf(va, vb, vc, q);
    CoeffsDivisorsPositive(va, vb, vc, q);
    var m := Clamp01(-k.d / k.a);
    SolveRegionEdge0(k.a, k.b, k.c, k.d, k.e, k.Det(), k.SNum(), k.TNum());
    assert ClosestParams(va, vb, vc, q) == Params(m, 0.0);
    ClosestIsPointAt(va, vb, vc, q);
    Edge0ClampNearest(va, vb, vc, q, k, s);
  }

  /** `|q - (va + t * edge1)|^2` as a quadratic in `t`. */
  lemma DistanceAlongEdge1(va: Vec3, vb: Vec3, vc: Vec3, q: Vec3, t: real, k: Coeffs)
    requires k == CoeffsOf(va, vb, vc, q)
    ensures DistSq(PointAt(va, vb, vc, Params(0.0, t)), q) == Dot(Sub(va, q), Sub(va, q)) + (2.0 * t * k.e + t * t * k.c)
  {
    OffsetFromCorner(va, q, Scale(t, Sub(vc, va)), Sub(vb, va));
    SideDistance(PointAt(va, vb, vc, Params(0.0, t)), q, Sub(va, q), Sub(vc, va), t, k.e, k.c);
  }

  /** On the side `s = 0`, the parameter `clamp(-e/c, 0, 1)` gives the nearest point. */
  lemma Edge1ClampNearest(va: Vec3, vb: Vec3, vc: Vec3, q: Vec3, k: Coeffs, t: real)
    requires k == CoeffsOf(va, vb, vc, q) && k.c > 0.0
    requires 0.0 <= t <= 1.0
    ensures DistSq(PointAt(va, vb, vc, Params(0.0, Clamp01(-k.e / k.c))), q) <= DistSq(PointAt(va, vb, vc, Params(0.0, t)), q)
  {
    var edge1 := Sub(vc, va);
    OffsetFromCorner(va, q, Scale(Clamp01(-k.e / k.c), edge1), Sub(vb, va));
    OffsetFromCorner(va, q, Scale(t, edge1), Sub(vb, va));
    SideNearest(Sub(va, q), edge1, t);
  }

  /** The three branches of the case analysis that clamp `-e/c` onto the side `s = 0`. */
  lemma SolveRegionEdge1(a: real, b: real, c: real, d: real, e: real, det: real, s: real, t: real)
    requires DivisorsPositive(a, b, c, det)
    requires s < 0.0
    requires if s + t < det then t < 0.0 ==> d >= 0.0 else c + e <= b + d
    ensures SolveRegion(a, b, c, d, e, det, s, t) == Params(0.0, Clamp01(-e / c))
  {
  }

  /**
   * Where the case analysis settles on the side `s = 0` by clamping `-e/c`
   * (lines 73-75, 77-79 and 97-99), the result is the nearest point of that side.
   */
  lemma Edge1ClampIsNearest(va: Vec3, vb: Vec3, vc: Vec3, q: Vec3, t: real)
    requires NonDegenerate(va, vb, vc)
    requires var k := CoeffsOf(va, vb, vc, q);
      && k.SNum() < 0.0
      && if k.SNum() + k.TNum() < k.Det() then k.TNum() < 0.0 ==> k.d >= 0.0 else k.c + k.e <= k.b + k.d
    requires 0.0 <= t <= 1.0
    ensures DistSq(ClosestPointOnTriangle(va, vb, vc, q), q) <= DistSq(PointAt(va, vb, vc, Params(0.0, t)), q)
  {
    var k := CoeffsOf(va, vb, vc, q);
    CoeffsDivisorsPositive(va, vb, vc, q);
    var m := Clamp01(-k.e / k.c);
    SolveRegionEdge1(k.a, k.b, k.c, k.d, k.e, k.Det(), k.SNum(), k.TNum());
    assert ClosestParams(va, vb, vc, q) == Params(0.0, m);
    ClosestIsPointAt(va, vb, vc, q);
    Edge1ClampNearest(va, vb, vc, q, k, t);
  }

  /** The parameters `(0, 0)` name the first corner. */
  lemma PointAtFirstCorner(va: Vec3, vb: Vec3, vc: Vec3)
    ensures PointAt(va, vb, vc, Params(0.0, 0.0)) == va
  {
  }

  /** With the coefficients of the region-6 witness, the case analysis returns the first corner `(0, 0)`. */
  lemma Region6FallbackParams(k: Coeffs)
    requires k == Coeffs(1.0, 0.0, 1.0, -2.0, 1.0)
    ensures DivisorsPositive(k.a, k.b, k.c, k.Det())
    ensures SolveRegion(k.a, k.b, k.c, k.d, k.e, k.Det(), k.SNum(), k.TNum()) == Params(0.0, 0.0)
  {
  }

  /** The right triangle (0,0,0), (1,0,0), (0,1,0) is non-degenerate. */
  lemma UnitRightTriangle(va: Vec3, vb: Vec3, vc: Vec3)
    requires va == Vec3(0.0, 0.0, 0.0) && vb == Vec3(1.0, 0.0, 0.0) && vc == Vec3(0.0, 1.0, 0.0)
    ensures NonDegenerate(va, vb, vc) && GramDet(va, vb, vc) == 1.0
  {
    assert Sub(vb, va) == Vec3(1.0, 0.0, 0.0);
    assert Sub(vc, va) == Vec3(0.0, 1.0, 0.0);
  }

  /**
   * On that right triangle, the point with weights (0.5, 0.5, 0) moved by
   * (0.54, 0, 0) is (1.04, 0, 0), whose barycentric coordinates are
   * (-0.04, 1.04, 0).
   */
  lemma Overshoot(va: Vec3, vb: Vec3, vc: Vec3, w: Vec3, step: Vec3)
    requires va == Vec3(0.0, 0.0, 0.0) && vb == Vec3(1.0, 0.0, 0.0) && vc == Vec3(0.0, 1.0, 0.0)
    requires w == Vec3(0.5, 0.5, 0.0) && step == Vec3(0.54, 0.0, 0.0)
    ensures NonDegenerate(va, vb, vc)
    ensures Barycentric(va, vb, vc, Add(Blend(w, va, vb, vc), step)) == Vec3(-0.04, 1.04, 0.0)
  {
    var p := Params(1.04, 0.0);
    assert Scale(w.x, va) == Zero && Scale(w.y, vb) == Vec3(0.5, 0.0, 0.0) && Scale(w.z, vc) == Zero;
    assert Add(Blend(w, va, vb, vc), step) == Vec3(1.04, 0.0, 0.0);
    assert Scale(p.s, Sub(vb, va)) == Vec3(1.04, 0.0, 0.0) && Scale(p.t, Sub(vc, va)) == Zero;
    assert PointAt(va, vb, vc, p) == Vec3(1.04, 0.0, 0.0);
    UnitRightTriangle(va, vb, vc);
    BarycentricOfPointAt(va, vb, vc, p);
  }

  /** The coefficients of the query `(2, -1, 0)` on the unit right triangle. */
  lemma Region6Coeffs(va: Vec3, vb: Vec3, vc: Vec3, q: Vec3)
    requires va == Vec3(0.0, 0.0, 0.0) && vb == Vec3(1.0, 0.0, 0.0) && vc == Vec3(0.0, 1.0, 0.0) && q == Vec3(2.0, -1.0, 0.0)
    ensures CoeffsOf(va, vb, vc, q) == Coeffs(1.0, 0.0, 1.0, -2.0, 1.0)
    ensures NonDegenerate(va, vb, vc)
  {
    assert Sub(vb, va) == Vec3(1.0, 0.0, 0.0);
    assert Sub(vc, va) == Vec3(0.0, 1.0, 0.0);
    assert Sub(va, q) == Vec3(-2.0, 1.0, 0.0);
  }

  /** Squared distances from `(2, -1, 0)` to the corners `(1, 0, 0)` and `(0, 0, 0)`. */
  lemma Region6Distances(va: Vec3, vb: Vec3, q: Vec3)
    requires va == Vec3(0.0, 0.0, 0.0) && vb == Vec3(1.0, 0.0, 0.0) && q == Vec3(2.0, -1.0, 0.0)
    ensures DistSq(vb, q) == 2.0 && DistSq(va, q) == 5.0
  {
    assert Sub(vb, q) == Vec3(-1.0, 1.0, 0.0);
    assert Sub(va, q) == Vec3(-2.0, 1.0, 0.0);
  }

  /**
   * Line 108 clamps `-e/c`, the stationary parameter of the side `s = 0`,
   * into `s` on the side `t = 0`; the reference method clamps `-d/a` there.
   * For the right triangle (0,0,0), (1,0,0), (0,1,0) and the query
   * (2,-1,0) the routine returns the corner (0,0,0), although the corner
   * (1,0,0) of the same triangle is nearer: the result is on the triangle
   * but is not its nearest point.
   */
  lemma Region6FallbackNotNearest(va: Vec3, vb: Vec3, vc: Vec3, q: Vec3)
    requires va == Vec3(0.0, 0.0, 0.0) && vb == Vec3(1.0, 0.0, 0.0) && vc == Vec3(0.0, 1.0, 0.0) && q == Vec3(2.0, -1.0, 0.0)
    ensures NonDegenerate(va, vb, vc)
    ensures ClosestPointOnTriangle(va, vb, vc, q) == va
    ensures DistSq(vb, q) < DistSq(ClosestPointOnTriangle(va, vb, vc, q), q)
  {
    Region6Coeffs(va, vb, vc, q);
    Region6FallbackParams(CoeffsOf(va, vb, vc, q));
    PointAtFirstCorner(va, vb, vc);
    Region6Distances(va, vb, q);
  }

  /*
   * Substitution steps. Each lemma below only replaces terms by equal ones
   * inside a sum of products. They are lemmas, not `assert ... by` steps,
   * so that the solver meets each substitution as a goal over plain reals,
   * apart from the vectors it came from; written inline, the same steps made
   * several proofs above depend on the solver's random seed.
   */

  /** Replaces the coefficients of `s * du + t * dv` by equal ones. */
  lemma SumCoeffs(x: real, s: real, t: real, du0: real, dv0: real, du: real, dv: real)
    requires x == s * du0 + t * dv0 && du0 == du && dv0 == dv
    ensures x == s * du + t * dv
  {
  }

  /** Replaces the lead term `u` of `u - b - c` by `-a` when `u == -a`. */
  lemma NegateLead(x: real, u: real, a: real, b: real, c: real)
    requires x == u - b - c && u == -a
    ensures x == -a - b - c
  {
  }

  /** Replaces the coefficients of `-(s * du + t * dv)` by equal ones. */
  lemma CombinationCoeffs(x: real, s: real, t: real, du0: real, dv0: real, du: real, dv: real)
    requires x == -(s * du0 + t * dv0) && du0 == du && dv0 == dv
    ensures x == -(s * du + t * dv)
  {
  }

  /** Replaces the coefficients of `base + (2 s d + s^2 a)` by equal ones. */
  lemma QuadraticCoeffs(dist: real, base: real, s: real, d0: real, a0: real, d: real, a: real)
    requires dist == base + (2.0 * s * d0 + s * s * a0) && d0 == d && a0 == a
    ensures dist == base + (2.0 * s * d + s * s * a)
  {
  }

  /** Collects the terms of `base + 2 * (s * d) + s * (s * a)` into `base + (2 s d + s^2 a)`. */
  lemma QuadraticTerms(total: real, base: real, cross: real, square: real, s: real, d: real, a: real)
    requires total == base + 2.0 * cross + square
    requires cross == s * d && square == s * (s * a)
    ensures total == base + (2.0 * s * d + s * s * a)
  {
  }
}
