/**
 * `Mesh._connectivity` as a whole: the vertex maps, the face map and boundary
 * edges, then the boundary-loop walk.  The result is the four entries the method
 * stores in the cache (`v_v`, `v_f`, `f_f`, `boundaries`), or the exception it
 * raises.
 */
module Connectivity {
  import opened Faces
  import opened Renumber
  import opened Adjacency
  import opened Boundary

  /** The connectivity entries of the cache. */
  datatype Maps = Maps(vv: seq<set<nat>>, vf: seq<set<nat>>, ff: seq<set<nat>>, boundaries: seq<seq<nat>>)

  /** What a successful `_connectivity` leaves, given the boundary edges it walked. */
  ghost predicate ConnectivityOf(faces: seq<Face>, nv: nat, m: Maps, edges: map<nat, nat>) {
    && InBounds(faces, nv)
    && VertexMapsOf(faces, nv, m.vv, m.vf)
    && AllPairsOk(faces, m.vv, m.vf)
    && AdjacencyOf(faces, m.vv, m.vf, m.ff)
    && BoundaryEdgesOf(faces, m.vv, m.vf, edges)
    && (forall l :: 0 <= l < |m.boundaries| ==> Loop(m.boundaries[l], edges))
    && EdgesUsedOnce(m.boundaries)
  }

  /**
   * `_connectivity`.  It raises `KeyError` exactly when a row names a vertex outside
   * `0 .. nv-1`; it raises one of the other errors only when some pair of `v_v` raises
   * it.  Otherwise the entries are the ones the rows determine: `v_v` and `f_f`
   * symmetric, no row its own neighbour, every loop a closed walk along distinct
   * boundary edges.  A watertight surface has no loop; when the boundary edges form
   * disjoint cycles every one of them lies on a loop, so there is no loop exactly
   * when the surface is watertight.
   */
  method Compute(faces: seq<Face>, nv: nat) returns (r: Outcome<Maps>, edges: map<nat, nat>)
    ensures (r.Failure? && r.error == MissingVertex) <==> !InBounds(faces, nv)
    ensures r.Failure? && r.error != MissingVertex ==>
      InBounds(faces, nv) &&
      exists vv, vf :: VertexMapsOf(faces, nv, vv, vf) && !AllPairsOk(faces, vv, vf) &&
        exists v: nat, u :: v < nv && u in vv[v] && u < nv && Raises(faces, vf, v, u, r.error)
    ensures r.Success? ==> ConnectivityOf(faces, nv, r.value, edges)
    ensures r.Success? ==> forall v, u :: 0 <= v < nv && 0 <= u < nv ==> (u in r.value.vv[v] <==> v in r.value.vv[u])
    ensures r.Success? ==> SymmetricFaces(r.value.ff, |faces|)
    ensures r.Success? && Watertight(r.value.vv, r.value.vf) ==> r.value.boundaries == []
    ensures r.Success? && Permutation(edges) ==>
      (forall o :: o in edges ==> IsOrigin(r.value.boundaries, o)) &&
      (r.value.boundaries == [] <==> Watertight(r.value.vv, r.value.vf))
  {
    var ok, vv, vf := VertexMaps(faces, nv);
    if !ok {
      return Failure(MissingVertex), map[];
    }
    var err, ff;
    ok, err, ff, edges := FaceMaps(faces, vv, vf);
    if !ok {
      return Failure(err), edges;
    }
    var loops := WalkBoundaries(edges);
    NoEdgesIffWatertight(faces, vv, vf, edges);
    if Permutation(edges) && loops == [] {
      assert forall o :: o !in edges;
    }
    r := Success(Maps(vv, vf, ff, loops));
  }

  /**
   * Boundary loops run against the winding of the faces: when every row is a proper
   * polygon, each step `x -> y` of a loop is traversed `y -> x` by the one row
   * holding both vertices.
   */
  lemma LoopAgainstWinding(faces: seq<Face>, nv: nat, m: Maps, edges: map<nat, nat>, l: nat, p: nat)
    requires ConnectivityOf(faces, nv, m, edges)
    requires forall f :: 0 <= f < |faces| ==> Proper(faces[f], Arity(faces[f]))
    requires l < |m.boundaries| && p < |m.boundaries[l]| - 1
    ensures exists f :: 0 <= f < |faces| && Follows(faces[f], Arity(faces[f]), m.boundaries[l][p + 1], m.boundaries[l][p])
  {
    var b := m.boundaries[l];
    assert Loop(b, edges);
    var x := b[p];
    assert x in edges && Target(edges, x) == b[p + 1];
    var v: nat, u: nat, f: nat :| RecordedAs(faces, m.vv, m.vf, v, u, f, x, edges[x]);
    BoundaryEdgeAgainstWinding(faces, m.vv, m.vf, v, u, f, x, edges[x]);
  }

  /** Every row of `faces` is the row of `rows` or its reversal. */
  predicate Reoriented(rows: seq<Face>, faces: seq<Face>) {
    |rows| == |faces| && forall f :: 0 <= f < |faces| ==> faces[f] == rows[f] || faces[f] == Reverse(rows[f])
  }

  /** A step read on a reversed row is the opposite step of the row. */
  lemma ReversedStep(r: Face, j: nat, v: nat, u: nat)
    requires j < Arity(Reverse(r))
    requires Reverse(r)[Prev(j, Arity(Reverse(r)))] == v && Reverse(r)[j] == u
    ensures exists k :: 0 <= k < Arity(r) && r[Prev(k, Arity(r))] == u && r[k] == v
  {
    ReverseKeepsShape(r);
    var n := Arity(r);
    var k := if n == 3 then (4 - j) % 3 else (4 - j) % 4;
    assert r[Prev(k, n)] == u && r[k] == v;
  }

  /**
   * Reversing rows changes neither which vertices a row holds nor which vertices
   * are neighbours on it, so the vertex maps and the face map of `_connectivity`
   * computed for `rows` also describe `faces`.
   */
  lemma ReorientedKeepsMaps(rows: seq<Face>, faces: seq<Face>, nv: nat, m: Maps)
    requires Reoriented(rows, faces)
    requires VertexMapsOf(rows, nv, m.vv, m.vf) && AdjacencyOf(rows, m.vv, m.vf, m.ff)
    ensures VertexMapsOf(faces, nv, m.vv, m.vf) && AdjacencyOf(faces, m.vv, m.vf, m.ff)
  {
    forall v, f ensures Incident(faces, v, f) <==> Incident(rows, v, f) {
      if 0 <= f < |faces| {
        CycleHasRowVertices(faces[f]);
        CycleHasRowVertices(rows[f]);
        ReverseKeepsShape(rows[f]);
        assert v in faces[f] <==> v in multiset(faces[f]);
        assert v in rows[f] <==> v in multiset(rows[f]);
      }
    }
    forall v, u ensures Consecutive(faces, v, u) ==> Consecutive(rows, v, u) {
      if Consecutive(faces, v, u) {
        var f, j :| Step(faces, f, j, v, u) || Step(faces, f, j, u, v);
        var x, y := if Step(faces, f, j, v, u) then v else u, if Step(faces, f, j, v, u) then u else v;
        if faces[f] == rows[f] {
          assert Step(rows, f, j, x, y);
        } else {
          ReversedStep(rows[f], j, x, y);
          var k :| 0 <= k < Arity(rows[f]) && rows[f][Prev(k, Arity(rows[f]))] == y && rows[f][k] == x;
          assert Step(rows, f, k, y, x);
        }
      }
    }
    forall v, u ensures Consecutive(rows, v, u) ==> Consecutive(faces, v, u) {
      if Consecutive(rows, v, u) {
        var f, j :| Step(rows, f, j, v, u) || Step(rows, f, j, u, v);
        var x, y := if Step(rows, f, j, v, u) then v else u, if Step(rows, f, j, v, u) then u else v;
        if faces[f] == rows[f] {
          assert Step(faces, f, j, x, y);
        } else {
          ReverseInvolution(rows[f]);
          assert rows[f] == Reverse(faces[f]);
          ReversedStep(faces[f], j, x, y);
          var k :| 0 <= k < Arity(faces[f]) && faces[f][Prev(k, Arity(faces[f]))] == y && faces[f][k] == x;
          assert Step(faces, f, k, y, x);
        }
      }
    }
  }
}
