/**
 * Vertex renumbering and face-index rewriting of the `Mesh` class: the
 * mask-and-renumber expressions of `extract_faces` and `remove_unused_vertices`,
 * the index offset of `__add__` and the mirrored copy built by `symmetrize`.
 * Vertex coordinates are opaque values of a type parameter `V`.
 */
module Renumber {
  import opened Faces

  /** Every index of every row is below `nv`. */
  predicate InBounds(faces: seq<Face>, nv: nat) {
    forall i, j :: 0 <= i < |faces| && 0 <= j < 4 ==> faces[i][j] < nv
  }

  /** Some row refers to vertex `v`. */
  predicate Referenced(faces: seq<Face>, v: nat) {
    exists i, j :: 0 <= i < |faces| && 0 <= j < 4 && faces[i][j] == v
  }

  /**
   * Every row of `faces` names, in `vertices`, in each of its four slots, the
   * coordinates that the row of `faces'` with the same index names in `vertices'`.
   */
  ghost predicate SameCoordinates<V>(vertices': seq<V>, faces': seq<Face>, vertices: seq<V>, faces: seq<Face>) {
    && |faces| <= |faces'| && InBounds(faces, |vertices|)
    && forall i, j :: 0 <= i < |faces| && 0 <= j < 4 ==>
         faces'[i][j] < |vertices'| && vertices'[faces'[i][j]] == vertices[faces[i][j]]
  }

  /** Every id of `ids` names a row of `faces`. */
  predicate ValidIds(ids: seq<nat>, nf: nat) {
    forall k :: 0 <= k < |ids| ==> ids[k] < nf
  }

  /** `faces[ids]`: the selected rows, in the order and with the repetitions of `ids`. */
  function Select(faces: seq<Face>, ids: seq<nat>): (r: seq<Face>)
    requires ValidIds(ids, |faces|)
    ensures |r| == |ids| && forall k :: 0 <= k < |ids| ==> r[k] == faces[ids[k]]
  {
    seq(|ids|, k requires 0 <= k < |ids| => faces[ids[k]])
  }

  /** `vertices_mask` / `used_v`: the vertices below `nv` that some row refers to. */
  function UsedMask(faces: seq<Face>, nv: nat): (m: seq<bool>)
    ensures |m| == nv && forall v :: 0 <= v < nv ==> (m[v] <==> Referenced(faces, v))
  {
    seq(nv, v requires 0 <= v < nv => Referenced(faces, v))
  }

  /** `new_id = np.arange(nv); new_id[id_v] = np.arange(len(id_v))`. */
  function Renumbering(idv: seq<nat>, nv: nat): (r: seq<nat>)
    requires Increasing(idv) && forall k :: 0 <= k < |idv| ==> idv[k] < nv
    ensures |r| == nv
    ensures forall k :: 0 <= k < |idv| ==> r[idv[k]] == k
    ensures forall v :: 0 <= v < nv && v !in idv ==> r[v] == v
  {
    if |idv| == 0 then seq(nv, v requires 0 <= v < nv => v)
    else
      var n := |idv| - 1;
      Renumbering(idv[..n], nv)[idv[n] := n]
  }

  /** `new_id[faces]`: every index of every row is looked up in the renumbering. */
  function Relabel(faces: seq<Face>, newId: seq<nat>): (r: seq<Face>)
    requires InBounds(faces, |newId|)
    ensures |r| == |faces|
    ensures forall i, j :: 0 <= i < |faces| && 0 <= j < 4 ==> r[i][j] == newId[faces[i][j]]
  {
    seq(|faces|, i requires 0 <= i < |faces| =>
      [newId[faces[i][0]], newId[faces[i][1]], newId[faces[i][2]], newId[faces[i][3]]])
  }

  /** `vertices[id_v]`: the coordinates of the kept vertices, in the order of `idv`. */
  function Gather<V>(vertices: seq<V>, idv: seq<nat>): (r: seq<V>)
    requires forall k :: 0 <= k < |idv| ==> idv[k] < |vertices|
    ensures |r| == |idv| && forall k :: 0 <= k < |idv| ==> r[k] == vertices[idv[k]]
  {
    seq(|idv|, k requires 0 <= k < |idv| => vertices[idv[k]])
  }

  /** The vertices kept by a renumbering: the referenced ones, ascending (`id_v`). */
  function KeptVertices(faces: seq<Face>, nv: nat): seq<nat> {
    Where(UsedMask(faces, nv))
  }

  /** The rows rewritten against the kept vertices. */
  function RenumberedFaces(faces: seq<Face>, nv: nat): seq<Face>
    requires InBounds(faces, nv)
  {
    var idv := KeptVertices(faces, nv);
    Relabel(faces, Renumbering(idv, nv))
  }

  /**
   * `id_v`: the kept vertices are exactly the vertices below `nv` that some row
   * refers to, in increasing old index.
   */
  lemma KeptVerticesSpec(faces: seq<Face>, nv: nat)
    ensures Increasing(KeptVertices(faces, nv))
    ensures forall v: nat :: v in KeptVertices(faces, nv) <==> v < nv && Referenced(faces, v)
  {
    var idv := KeptVertices(faces, nv);
    forall v: nat ensures v in idv <==> v < nv && Referenced(faces, v) {
      if v in idv {
        var k :| 0 <= k < |idv| && idv[k] == v;
      }
    }
  }

  /**
   * The rewritten rows of `extract_faces` and `remove_unused_vertices`: every new
   * index is below `len(id_v)` and names, through `id_v`, the vertex the old row
   * named, so the new mesh points at the same coordinates as before.
   */
  lemma RenumberKeepsCoordinates<V>(faces: seq<Face>, vertices: seq<V>)
    requires InBounds(faces, |vertices|)
    ensures InBounds(RenumberedFaces(faces, |vertices|), |KeptVertices(faces, |vertices|)|)
    ensures forall i, j :: 0 <= i < |faces| && 0 <= j < 4 ==>
      KeptVertices(faces, |vertices|)[RenumberedFaces(faces, |vertices|)[i][j]] == faces[i][j]
    ensures SameCoordinates(Gather(vertices, KeptVertices(faces, |vertices|)), RenumberedFaces(faces, |vertices|), vertices, faces)
  {
    var nv := |vertices|;
    var idv := KeptVertices(faces, nv);
    var nf := RenumberedFaces(faces, nv);
    RenumberPointsBack(faces, nv);
    var g := Gather(vertices, idv);
    forall i, j | 0 <= i < |faces| && 0 <= j < 4
      ensures g[nf[i][j]] == vertices[faces[i][j]]
    {
      assert idv[nf[i][j]] == faces[i][j];
    }
  }

  /** The index part of `RenumberKeepsCoordinates`. */
  lemma RenumberPointsBack(faces: seq<Face>, nv: nat)
    requires InBounds(faces, nv)
    ensures InBounds(RenumberedFaces(faces, nv), |KeptVertices(faces, nv)|)
    ensures forall i, j :: 0 <= i < |faces| && 0 <= j < 4 ==>
      KeptVertices(faces, nv)[RenumberedFaces(faces, nv)[i][j]] == faces[i][j]
  {
    var idv := KeptVertices(faces, nv);
    var newId := Renumbering(idv, nv);
    var nf := RenumberedFaces(faces, nv);
    assert nf == Relabel(faces, newId);
    KeptVerticesSpec(faces, nv);
    forall i, j | 0 <= i < |faces| && 0 <= j < 4
      ensures nf[i][j] < |idv| && idv[nf[i][j]] == faces[i][j]
    {
      var v := faces[i][j];
      assert Referenced(faces, v);
      var k :| 0 <= k < |idv| && idv[k] == v;
      assert newId[v] == k;
      assert nf[i][j] == newId[v];
    }
  }

  /**
   * After the renumbering every kept vertex is used by some rewritten row (what
   * `remove_unused_vertices` promises), and each row stays a triangle or a
   * quadrangle as before (the renumbering is injective on the used vertices).
   */
  lemma RenumberUsesAllKept(faces: seq<Face>, nv: nat)
    requires InBounds(faces, nv)
    ensures forall v :: 0 <= v < |KeptVertices(faces, nv)| ==> Referenced(RenumberedFaces(faces, nv), v)
    ensures forall i :: 0 <= i < |faces| ==>
      (IsTriangle(RenumberedFaces(faces, nv)[i]) <==> IsTriangle(faces[i]))
  {
    var idv := KeptVertices(faces, nv);
    var nf := RenumberedFaces(faces, nv);
    var vertices := seq(nv, v requires 0 <= v < nv => v);
    RenumberKeepsCoordinates(faces, vertices);
    forall v | 0 <= v < |idv| ensures Referenced(nf, v) {
      var oldV := idv[v];
      assert Referenced(faces, oldV);
      var i, j :| 0 <= i < |faces| && 0 <= j < 4 && faces[i][j] == oldV;
      assert idv[nf[i][j]] == oldV;
      assert nf[i][j] == v;
    }
    forall i | 0 <= i < |faces| ensures IsTriangle(nf[i]) <==> IsTriangle(faces[i]) {
      assert idv[nf[i][0]] == faces[i][0] && idv[nf[i][3]] == faces[i][3];
    }
  }

  /** An ascending list of `n` indices below `n` is `0, 1, .., n-1`. */
  lemma {:induction false} FullIncreasing(s: seq<nat>, n: nat)
    requires Increasing(s) && |s| == n && forall k :: 0 <= k < |s| ==> s[k] < n
    ensures forall k :: 0 <= k < |s| ==> s[k] == k
  {
    if n > 0 {
      var init := s[..n - 1];
      forall k | 0 <= k < |init| ensures init[k] < n - 1 {
        assert s[k] < s[n - 1];
      }
      FullIncreasing(init, n - 1);
      if n > 1 {
        assert s[n - 2] == init[n - 2] == n - 2;
      }
    }
  }

  /**
   * When as many vertices are kept as there are, every vertex is referenced and the
   * renumbering is the identity, so `remove_unused_vertices` may leave the arrays as
   * they are.
   */
  lemma NothingUnused(faces: seq<Face>, nv: nat)
    requires InBounds(faces, nv) && |KeptVertices(faces, nv)| == nv
    ensures forall v :: 0 <= v < nv ==> Referenced(faces, v)
    ensures RenumberedFaces(faces, nv) == faces
  {
    var idv := KeptVertices(faces, nv);
    KeptVerticesSpec(faces, nv);
    FullIncreasing(idv, nv);
    forall v | 0 <= v < nv ensures Referenced(faces, v) {
      assert idv[v] == v;
    }
    var newId := Renumbering(idv, nv);
    forall v | 0 <= v < nv ensures newId[v] == v {
      assert idv[v] == v;
    }
    var r := RenumberedFaces(faces, nv);
    forall i | 0 <= i < |faces| ensures r[i] == faces[i] {
      assert forall j :: 0 <= j < 4 ==> r[i][j] == faces[i][j];
    }
  }

  /** The vertices `remove_unused_vertices` keeps: all of them when every one is used. */
  function UsedVertices<V>(vertices: seq<V>, faces: seq<Face>): seq<V>
    requires InBounds(faces, |vertices|)
  {
    var idv := KeptVertices(faces, |vertices|);
    if |idv| < |vertices| then Gather(vertices, idv) else vertices
  }

  /** The rows `remove_unused_vertices` leaves: renumbered when some vertex is unused. */
  function UsedFaces(faces: seq<Face>, nv: nat): seq<Face>
    requires InBounds(faces, nv)
  {
    if |KeptVertices(faces, nv)| < nv then RenumberedFaces(faces, nv) else faces
  }

  /**
   * After `remove_unused_vertices` every vertex is used, and the rows keep their
   * count and their shapes and name the coordinates they named before.
   */
  lemma RemoveUnusedSpec<V>(vertices: seq<V>, faces: seq<Face>)
    requires InBounds(faces, |vertices|)
    ensures var vertices', faces' := UsedVertices(vertices, faces), UsedFaces(faces, |vertices|);
      && |faces'| == |faces| && InBounds(faces', |vertices'|)
      && (forall v :: 0 <= v < |vertices'| ==> Referenced(faces', v))
      && SameCoordinates(vertices', faces', vertices, faces)
      && SameShapes(faces, faces')
  {
    var nv := |vertices|;
    if |KeptVertices(faces, nv)| < nv {
      RenumberKeepsCoordinates(faces, vertices);
      RenumberUsesAllKept(faces, nv);
    } else {
      KeptVerticesSpec(faces, nv);
      IncreasingBelow(KeptVertices(faces, nv), nv);
      NothingUnused(faces, nv);
    }
  }

  /** An ascending list of numbers below `n` has at most `n` entries. */
  lemma {:induction false} IncreasingBelow(s: seq<nat>, n: nat)
    requires Increasing(s) && forall k :: 0 <= k < |s| ==> s[k] < n
    ensures |s| <= n
  {
    if s != [] {
      var init := s[..|s| - 1];
      assert forall k :: 0 <= k < |init| ==> init[k] < s[|s| - 1] < n;
      IncreasingBelow(init, n - 1);
    }
  }

  // ---------------------------------------------------------------------------
  // __add__ and symmetrize
  // ---------------------------------------------------------------------------

  /** `faces + offset` on every index. */
  function Offset(faces: seq<Face>, offset: nat): (r: seq<Face>)
    ensures |r| == |faces|
    ensures forall i, j :: 0 <= i < |faces| && 0 <= j < 4 ==> r[i][j] == faces[i][j] + offset
  {
    seq(|faces|, i requires 0 <= i < |faces| =>
      [faces[i][0] + offset, faces[i][1] + offset, faces[i][2] + offset, faces[i][3] + offset])
  }

  /** Face side of `__add__`: the second mesh's rows follow, shifted past the first mesh's vertices. */
  function ConcatFaces(faces1: seq<Face>, nv1: nat, faces2: seq<Face>): seq<Face> {
    faces1 + Offset(faces2, nv1)
  }

  /**
   * After `__add__` concatenates the vertex arrays, every row of the sum still names
   * the coordinates its row in either operand named, and keeps its shape.
   */
  lemma ConcatFacesSpec<V>(vertices1: seq<V>, faces1: seq<Face>, vertices2: seq<V>, faces2: seq<Face>)
    requires InBounds(faces1, |vertices1|) && InBounds(faces2, |vertices2|)
    ensures var sum := ConcatFaces(faces1, |vertices1|, faces2);
      && |sum| == |faces1| + |faces2|
      && InBounds(sum, |vertices1| + |vertices2|)
      && (forall i, j :: 0 <= i < |faces1| && 0 <= j < 4 ==>
            (vertices1 + vertices2)[sum[i][j]] == vertices1[faces1[i][j]])
      && (forall i, j :: 0 <= i < |faces2| && 0 <= j < 4 ==>
            (vertices1 + vertices2)[sum[|faces1| + i][j]] == vertices2[faces2[i][j]])
      && (forall i :: 0 <= i < |sum| ==>
            (IsTriangle(sum[i]) <==> if i < |faces1| then IsTriangle(faces1[i]) else IsTriangle(faces2[i - |faces1|])))
  {
  }

  /** Face side of `symmetrize`: the original rows, then every row shifted by `nv` and reversed. */
  function MirroredFaces(faces: seq<Face>, nv: nat): (r: seq<Face>)
    ensures |r| == 2 * |faces|
  {
    var shifted := Offset(faces, nv);
    faces + seq(|faces|, i requires 0 <= i < |faces| => Reverse(shifted[i]))
  }

  /**
   * In the symmetrized mesh the copy of row `i` names the mirror images (vertex
   * `nv + v` is the image of `v`) of the row's vertices in reverse order, so the copy
   * winds the opposite way; triangles stay triangles.
   */
  lemma MirroredFacesSpec(faces: seq<Face>, nv: nat)
    requires InBounds(faces, nv)
    ensures var r := MirroredFaces(faces, nv);
      && r[..|faces|] == faces
      && InBounds(r, 2 * nv)
      && (forall i, j :: |faces| <= i < 2 * |faces| && 0 <= j < 4 ==> r[i][j] == faces[i - |faces|][3 - j] + nv)
      && (forall i :: |faces| <= i < 2 * |faces| ==> (IsTriangle(r[i]) <==> IsTriangle(faces[i - |faces|])))
  {
  }

  /** The symmetrized rows stay below `2 * nv` exactly when the original rows stay below `nv`. */
  lemma MirroredInBounds(faces: seq<Face>, nv: nat)
    ensures InBounds(MirroredFaces(faces, nv), 2 * nv) <==> InBounds(faces, nv)
  {
    var r := MirroredFaces(faces, nv);
    if InBounds(r, 2 * nv) {
      forall i, j | 0 <= i < |faces| && 0 <= j < 4 ensures faces[i][j] < nv {
        assert r[|faces| + i][3 - j] == faces[i][j] + nv;
      }
    } else if InBounds(faces, nv) {
      MirroredFacesSpec(faces, nv);
    }
  }

  /** `newId` sends every vertex to an equal coordinate of `uniq`, as `merge_duplicate_rows` returns it. */
  ghost predicate MergeMap<V>(vertices: seq<V>, uniq: seq<V>, newId: seq<nat>) {
    |newId| == |vertices| && forall v :: 0 <= v < |newId| ==> newId[v] < |uniq| && uniq[newId[v]] == vertices[v]
  }

  /** Rows relabelled through a merge map name the coordinates they named before. */
  lemma MergedKeepsCoordinates<V>(vertices: seq<V>, faces: seq<Face>, uniq: seq<V>, newId: seq<nat>)
    requires MergeMap(vertices, uniq, newId) && InBounds(faces, |vertices|)
    ensures var r := Relabel(faces, newId);
      && InBounds(r, |uniq|) && SameCoordinates(uniq, r, vertices, faces)
  {
  }

  /** Relabelling commutes with dropping the first `k` rows. */
  lemma RelabelSuffix(faces: seq<Face>, newId: seq<nat>, k: nat)
    requires InBounds(faces, |newId|) && k <= |faces|
    ensures InBounds(faces[k..], |newId|)
    ensures Relabel(faces, newId)[k..] == Relabel(faces[k..], newId)
  {
    var r, r' := Relabel(faces, newId)[k..], Relabel(faces[k..], newId);
    forall i | 0 <= i < |r| ensures r[i] == r'[i] {
      assert faces[k..][i] == faces[k + i];
      assert forall j :: 0 <= j < 4 ==> r[i][j] == r'[i][j];
    }
  }

  /**
   * Rows over the second part of a concatenated vertex array, shifted past the first
   * part and relabelled through a merge map of the concatenation, name the
   * coordinates they named in the second part.
   */
  lemma OffsetMerge<V>(vertices1: seq<V>, vertices2: seq<V>, faces: seq<Face>, uniq: seq<V>, newId: seq<nat>)
    requires MergeMap(vertices1 + vertices2, uniq, newId) && InBounds(faces, |vertices2|)
    ensures InBounds(Offset(faces, |vertices1|), |newId|)
    ensures SameCoordinates(uniq, Relabel(Offset(faces, |vertices1|), newId), vertices2, faces)
  {
    var shifted := Offset(faces, |vertices1|);
    var r := Relabel(shifted, newId);
    forall i, j | 0 <= i < |faces| && 0 <= j < 4
      ensures r[i][j] < |uniq| && uniq[r[i][j]] == vertices2[faces[i][j]]
    {
      var x := faces[i][j] + |vertices1|;
      assert r[i][j] == newId[x];
      assert (vertices1 + vertices2)[x] == vertices2[faces[i][j]];
    }
  }

  /**
   * Rows over the first part of a concatenated vertex array, followed by any rows,
   * relabelled through a merge map of the concatenation, name the coordinates they
   * named in the first part.
   */
  lemma PrefixMerge<V>(vertices1: seq<V>, vertices2: seq<V>, faces: seq<Face>, rest: seq<Face>,
                       uniq: seq<V>, newId: seq<nat>)
    requires MergeMap(vertices1 + vertices2, uniq, newId) && InBounds(faces, |vertices1|)
    requires InBounds(faces + rest, |newId|)
    ensures SameCoordinates(uniq, Relabel(faces + rest, newId), vertices1, faces)
  {
    var r := Relabel(faces + rest, newId);
    forall i, j | 0 <= i < |faces| && 0 <= j < 4
      ensures r[i][j] < |uniq| && uniq[r[i][j]] == vertices1[faces[i][j]]
    {
      assert (faces + rest)[i] == faces[i];
      assert (vertices1 + vertices2)[faces[i][j]] == vertices1[faces[i][j]];
    }
  }

  /** The copies `symmetrize` appends are the flipped rows shifted past the vertices. */
  lemma MirroredCopies(faces: seq<Face>, nv: nat)
    ensures MirroredFaces(faces, nv) == faces + Offset(FlipAll(faces), nv)
  {
    var shifted, flipped := Offset(faces, nv), Offset(FlipAll(faces), nv);
    var copies := seq(|faces|, i requires 0 <= i < |faces| => Reverse(shifted[i]));
    forall i | 0 <= i < |faces| ensures copies[i] == flipped[i] {
      assert forall j :: 0 <= j < 4 ==> copies[i][j] == flipped[i][j];
    }
  }

  /**
   * `symmetrize` on the rows: after merging, each original row names its old
   * coordinates and each copy names the images of its row's vertices in reverse
   * order, that is, the images of the flipped row.
   */
  lemma MirroredMerge<V>(vertices: seq<V>, images: seq<V>, faces: seq<Face>, uniq: seq<V>, newId: seq<nat>)
    requires |images| == |vertices| && MergeMap(vertices + images, uniq, newId) && InBounds(faces, |vertices|)
    ensures InBounds(MirroredFaces(faces, |vertices|), |newId|)
    ensures var r := Relabel(MirroredFaces(faces, |vertices|), newId);
      && |r| == 2 * |faces| && InBounds(r, |uniq|)
      && SameCoordinates(uniq, r, vertices, faces)
      && SameCoordinates(uniq, r[|faces|..], images, FlipAll(faces))
  {
    var nv := |vertices|;
    var flipped := FlipAll(faces);
    assert InBounds(flipped, |images|) by {
      forall i, j | 0 <= i < |faces| && 0 <= j < 4 ensures flipped[i][j] < |images| {
        assert flipped[i][j] == faces[i][3 - j];
      }
    }
    MirroredCopies(faces, nv);
    MirroredInBounds(faces, nv);
    MergedKeepsCoordinates(vertices + images, MirroredFaces(faces, nv), uniq, newId);
    OffsetMerge(vertices, images, flipped, uniq, newId);
    PrefixMerge(vertices, images, faces, Offset(flipped, nv), uniq, newId);
    RelabelSuffix(MirroredFaces(faces, nv), newId, |faces|);
  }

  /**
   * `__add__` on the rows: after merging, each row of the sum names the coordinates
   * its row named in its own mesh.
   */
  lemma ConcatMerge<V>(vertices1: seq<V>, faces1: seq<Face>, vertices2: seq<V>, faces2: seq<Face>,
                       uniq: seq<V>, newId: seq<nat>)
    requires InBounds(faces1, |vertices1|) && InBounds(faces2, |vertices2|)
    requires MergeMap(vertices1 + vertices2, uniq, newId)
    ensures InBounds(ConcatFaces(faces1, |vertices1|, faces2), |newId|)
    ensures var r := Relabel(ConcatFaces(faces1, |vertices1|, faces2), newId);
      && |r| == |faces1| + |faces2| && InBounds(r, |uniq|)
      && SameCoordinates(uniq, r, vertices1, faces1)
      && SameCoordinates(uniq, r[|faces1|..], vertices2, faces2)
  {
    var sum := ConcatFaces(faces1, |vertices1|, faces2);
    ConcatFacesSpec(vertices1, faces1, vertices2, faces2);
    MergedKeepsCoordinates(vertices1 + vertices2, sum, uniq, newId);
    OffsetMerge(vertices1, vertices2, faces2, uniq, newId);
    PrefixMerge(vertices1, vertices2, faces1, Offset(faces2, |vertices1|), uniq, newId);
    RelabelSuffix(sum, newId, |faces1|);
    assert sum[|faces1|..] == Offset(faces2, |vertices1|);
  }
}
