/**
 * The walk mesh's adjacency map `next_vertex`, keyed by a directed edge
 * `(a, b)` and giving the vertex that completes a triangle on that edge.
 * The constructor inserts the three directed edges of every triangle in
 * list order, so a later triangle overwrites what an earlier one stored.
 */
module EdgeMaps {

  /** An index triple, the `glm::uvec3` of the triangle list. */
  datatype Tri = Tri(x: nat, y: nat, z: nat)

  /** A directed edge, the `glm::uvec2` key of `next_vertex`. */
  type Edge = (nat, nat)

  /** `e` is one of the directed edges `(x, y)`, `(y, z)`, `(z, x)` of `t`. */
  predicate HasEdge(t: Tri, e: Edge) {
    e == (t.x, t.y) || e == (t.y, t.z) || e == (t.z, t.x)
  }

  /**
   * The vertex that inserting `t` leaves stored under its edge `e`. The edge
   * `(z, x)` is written last, then `(y, z)`, then `(x, y)`; two of them only
   * coincide when all three indices are equal.
   */
  function Third(t: Tri, e: Edge): nat
    requires HasEdge(t, e)
  {
    if e == (t.z, t.x) then t.y else if e == (t.y, t.z) then t.x else t.z
  }

  /** `t` read from one of its three corners, keeping its orientation. */
  predicate IsRotationOf(r: Tri, t: Tri) {
    r == t || r == Tri(t.y, t.z, t.x) || r == Tri(t.z, t.x, t.y)
  }

  /** One pass of the constructor's loop body (WalkMesh.cpp:38-44). */
  function Insert(m: map<Edge, nat>, t: Tri): map<Edge, nat> {
    m[(t.x, t.y) := t.z][(t.y, t.z) := t.x][(t.z, t.x) := t.y]
  }

  /** The map after the constructor's loop has run over all of `ts`. */
  function Build(ts: seq<Tri>): map<Edge, nat> {
    if ts == [] then map[] else Insert(Build(ts[..|ts| - 1]), ts[|ts| - 1])
  }

  /**
   * The constructor's loop over the triangle list (WalkMesh.cpp:37-45),
   * filling the map one directed edge at a time.
   */
  method BuildNextVertex(ts: seq<Tri>) returns (m: map<Edge, nat>)
    ensures m == Build(ts)
  {
    m := map[];
    var i := 0;
    while i < |ts|
      invariant 0 <= i <= |ts|
      invariant m == Build(ts[..i])
    {
      var t := ts[i];
      m := m[(t.x, t.y) := t.z];
      m := m[(t.y, t.z) := t.x];
      m := m[(t.z, t.x) := t.y];
      assert ts[..i + 1][..i] == ts[..i];
      i := i + 1;
    }
    assert ts[..i] == ts;
  }

  /** Inserting a triangle adds exactly its edges and overwrites only them. */
  lemma InsertAt(m: map<Edge, nat>, t: Tri, e: Edge)
    ensures e in Insert(m, t) <==> e in m || HasEdge(t, e)
    ensures e in Insert(m, t) ==> Insert(m, t)[e] == if HasEdge(t, e) then Third(t, e) else m[e]
  {
  }

  /** A key is present exactly when some triangle of the list has that directed edge. */
  lemma {:induction false} BuildKeys(ts: seq<Tri>, e: Edge)
    ensures e in Build(ts) <==> exists i :: 0 <= i < |ts| && HasEdge(ts[i], e)
  {
    if ts != [] {
      var n := |ts| - 1;
      var init := ts[..n];
      BuildKeys(init, e);
      InsertAt(Build(init), ts[n], e);
      if e in Build(ts) && !HasEdge(ts[n], e) {
        var i :| 0 <= i < |init| && HasEdge(init[i], e);
        assert ts[i] == init[i];
      }
      if exists i :: 0 <= i < |ts| && HasEdge(ts[i], e) {
        var i :| 0 <= i < |ts| && HasEdge(ts[i], e);
        if i < n {
          assert init[i] == ts[i];
        }
      }
    }
  }

  /** Every stored triangle's three directed edges are keys of the map. */
  lemma StoredEdgesPresent(ts: seq<Tri>, i: nat)
    requires i < |ts|
    ensures (ts[i].x, ts[i].y) in Build(ts)
    ensures (ts[i].y, ts[i].z) in Build(ts)
    ensures (ts[i].z, ts[i].x) in Build(ts)
  {
    var t := ts[i];
    BuildKeys(ts, (t.x, t.y));
    BuildKeys(ts, (t.y, t.z));
    BuildKeys(ts, (t.z, t.x));
  }

  /**
   * A key maps to the third vertex of the last triangle in list order that
   * has that directed edge: later triangles overwrite earlier ones.
   */
  lemma {:induction false} BuildLastWins(ts: seq<Tri>, e: Edge, i: nat)
    requires i < |ts| && HasEdge(ts[i], e)
    requires forall j :: i < j < |ts| ==> !HasEdge(ts[j], e)
    ensures e in Build(ts) && Build(ts)[e] == Third(ts[i], e)
  {
    var n := |ts| - 1;
    var init := ts[..n];
    InsertAt(Build(init), ts[n], e);
    if i < n {
      forall j | i < j < |init|
        ensures !HasEdge(init[j], e)
      {
        assert init[j] == ts[j];
      }
      BuildLastWins(init, e, i);
    }
  }

  /** The triple completed from a key is a stored triangle read from one of its corners. */
  lemma ThirdIsRotation(t: Tri, e: Edge)
    requires HasEdge(t, e)
    ensures IsRotationOf(Tri(e.0, e.1, Third(t, e)), t)
  {
  }

  /**
   * Completing any key with the vertex it maps to gives a cyclic rotation of
   * some triangle of the list.
   */
  lemma {:induction false} BuildCompletesRotation(ts: seq<Tri>, e: Edge)
    requires e in Build(ts)
    ensures exists i :: 0 <= i < |ts| && IsRotationOf(Tri(e.0, e.1, Build(ts)[e]), ts[i])
  {
    var n := |ts| - 1;
    var init := ts[..n];
    InsertAt(Build(init), ts[n], e);
    if HasEdge(ts[n], e) {
      ThirdIsRotation(ts[n], e);
    } else {
      BuildCompletesRotation(init, e);
      var i :| 0 <= i < |init| && IsRotationOf(Tri(e.0, e.1, Build(init)[e]), init[i]);
      assert ts[i] == init[i];
    }
  }
}
