/**
 * What the `__internals__` dictionary of a `Mesh` may hold and what each entry has
 * to agree with.  The dictionary is modelled by the keys it holds; the
 * integer entries (triangle and quadrangle ids, the connectivity maps) are held by
 * the mesh itself, and every floating-point entry (areas, normals, centers,
 * radiuses, surface integrals) is represented by what its formulas read from the
 * corner coordinates it was computed from (`Outline`, and the corners themselves
 * for the normals).
 */
module MeshCache {
  import opened Faces
  import opened Renumber
  import opened Adjacency
  import opened Boundary
  import opened Connectivity

  /** A vertex: three coordinates. */
  datatype Point = Point(x: real, y: real, z: real)

  /** The keys `__internals__` may hold: a flag per key, set while the key is present. */
  datatype Cache = Cache(
    trianglesIds: bool, quadranglesIds: bool,                        // `_triangles_quadrangles`
    vertexVertices: bool, vertexFaces: bool, faceFaces: bool, boundaries: bool, // `_connectivity`
    facesAreas: bool, facesNormals: bool, facesCenters: bool,        // `_faces_properties`
    facesRadiuses: bool,                                             // `_compute_radiuses`
    surfaceIntegrals: bool)                                          // `_compute_faces_integrals`

  /** The dictionary a new mesh starts with and every setter leaves. */
  const Empty := Cache(false, false, false, false, false, false, false, false, false, false, false)

  /** Each helper stores and deletes its keys together. */
  predicate Grouped(c: Cache) {
    && c.trianglesIds == c.quadranglesIds
    && c.vertexVertices == c.vertexFaces == c.faceFaces == c.boundaries
    && c.facesAreas == c.facesNormals == c.facesCenters
  }

  /** `c` with the keys of `_triangles_quadrangles` present (`b`) or absent. */
  function WithShapes(c: Cache, b: bool): Cache {
    c.(trianglesIds := b, quadranglesIds := b)
  }

  /** `c` with the keys of `_connectivity` present (`b`) or absent. */
  function WithConnectivity(c: Cache, b: bool): Cache {
    c.(vertexVertices := b, vertexFaces := b, faceFaces := b, boundaries := b)
  }

  /** `c` with the keys of `_faces_properties` present (`b`) or absent. */
  function WithProperties(c: Cache, b: bool): Cache {
    c.(facesAreas := b, facesNormals := b, facesCenters := b)
  }

  /** `c` without any entry that depends on the vertex coordinates. */
  function WithoutGeometry(c: Cache): Cache {
    WithProperties(c, false).(facesRadiuses := false, surfaceIntegrals := false)
  }

  /** `vertices[r]`: the coordinates of the four slots of row `r` (the origin for a slot naming no vertex). */
  function RowCorners(vertices: seq<Point>, r: Face): (c: seq<Point>)
    ensures |c| == 4
    ensures forall j :: 0 <= j < 4 && r[j] < |vertices| ==> c[j] == vertices[r[j]]
  {
    seq(4, j requires 0 <= j < 4 => if r[j] < |vertices| then vertices[r[j]] else Point(0.0, 0.0, 0.0))
  }

  /** `vertices[faces]`: the corners of every row. */
  function Corners(vertices: seq<Point>, faces: seq<Face>): (c: seq<seq<Point>>)
    ensures |c| == |faces|
    ensures forall i :: 0 <= i < |faces| ==> |c[i]| == 4
    ensures forall i, j :: 0 <= i < |faces| && 0 <= j < 4 && faces[i][j] < |vertices| ==>
      c[i][j] == vertices[faces[i][j]]
  {
    seq(|faces|, i requires 0 <= i < |faces| => RowCorners(vertices, faces[i]))
  }

  /**
   * What the area, center, radius and surface integrals of one row read from its four
   * corners.  A row whose first and last corners coincide gives the values of the
   * triangle of its first three corners, and each of those formulas is symmetric in
   * the second and third corner.  Any other row is split along the diagonal from its
   * first to its third corner, so its values depend on the corners in their order.
   */
  datatype Outline = Triangle(apex: Point, others: multiset<Point>) | Quadrangle(corners: seq<Point>)

  function OutlineOf(c: seq<Point>): Outline
    requires |c| == 4
  {
    if c[0] == c[3] then Triangle(c[0], multiset{c[1], c[2]}) else Quadrangle(c)
  }

  /** The outline of every row. */
  function Outlines(vertices: seq<Point>, faces: seq<Face>): (o: seq<Outline>)
    ensures |o| == |faces|
  {
    if faces == [] then [] else [OutlineOf(RowCorners(vertices, faces[0]))] + Outlines(vertices, faces[1..])
  }

  /** Entry `i` of `Outlines` is the outline of row `i`. */
  lemma {:induction false} OutlineAt(vertices: seq<Point>, faces: seq<Face>, i: nat)
    requires i < |faces|
    ensures Outlines(vertices, faces)[i] == OutlineOf(RowCorners(vertices, faces[i]))
  {
    if i > 0 {
      OutlineAt(vertices, faces[1..], i - 1);
    }
  }

  /**
   * Reversing a triangle row keeps its first slot and swaps the two others, so it
   * keeps the row's outline.
   */
  lemma ReversedTriangleOutline(vertices: seq<Point>, r: Face)
    requires IsTriangle(r)
    ensures OutlineOf(RowCorners(vertices, Reverse(r))) == OutlineOf(RowCorners(vertices, r))
  {
    var c, c' := RowCorners(vertices, r), RowCorners(vertices, Reverse(r));
    assert c' == [c[3], c[2], c[1], c[0]];
    assert multiset{c[2], c[1]} == multiset{c[1], c[2]};
  }

  /** Reversing rows of which only triangles changed keeps every outline. */
  lemma ReversedTrianglesKeepOutlines(vertices: seq<Point>, faces: seq<Face>, faces': seq<Face>)
    requires |faces'| == |faces|
    requires forall f :: 0 <= f < |faces| ==> faces'[f] == faces[f] || (IsTriangle(faces[f]) && faces'[f] == Reverse(faces[f]))
    ensures Outlines(vertices, faces') == Outlines(vertices, faces)
  {
    forall f | 0 <= f < |faces| ensures Outlines(vertices, faces')[f] == Outlines(vertices, faces)[f] {
      OutlineAt(vertices, faces, f);
      OutlineAt(vertices, faces', f);
      if faces'[f] != faces[f] {
        ReversedTriangleOutline(vertices, faces[f]);
      }
    }
  }

  /** Every row is a triangle. */
  predicate AllTriangles(faces: seq<Face>) {
    forall i :: 0 <= i < |faces| ==> IsTriangle(faces[i])
  }

  /** Flipping a mesh of triangles keeps every outline. */
  lemma FlippedTrianglesKeepOutlines(vertices: seq<Point>, faces: seq<Face>)
    ensures AllTriangles(faces) ==> Outlines(vertices, FlipAll(faces)) == Outlines(vertices, faces)
  {
    if AllTriangles(faces) {
      ReversedTrianglesKeepOutlines(vertices, faces, FlipAll(faces));
    }
  }

  /**
   * Corners depend only on the coordinates the slots name: two meshes with the same
   * number of rows whose slots name equal coordinates have equal corners and outlines.
   */
  lemma SameCorners(vertices: seq<Point>, faces: seq<Face>, vertices': seq<Point>, faces': seq<Face>)
    requires |faces| == |faces'| && SameCoordinates(vertices', faces', vertices, faces)
    ensures InBounds(faces', |vertices'|) && Corners(vertices', faces') == Corners(vertices, faces)
    ensures Outlines(vertices', faces') == Outlines(vertices, faces)
  {
    var c, c' := Corners(vertices, faces), Corners(vertices', faces');
    forall i | 0 <= i < |faces| ensures c'[i] == c[i] {
      assert forall j :: 0 <= j < 4 ==> c'[i][j] == c[i][j];
    }
    forall i | 0 <= i < |faces| ensures Outlines(vertices', faces')[i] == Outlines(vertices, faces)[i] {
      OutlineAt(vertices, faces, i);
      OutlineAt(vertices', faces', i);
      assert RowCorners(vertices', faces'[i]) == c'[i] == c[i] == RowCorners(vertices, faces[i]);
    }
  }

  /** Every vertex moved by `d` (`translate_x`, `translate_y`, `translate_z`, `translate`). */
  function Shifted(vertices: seq<Point>, d: Point): (r: seq<Point>)
    ensures |r| == |vertices|
  {
    seq(|vertices|, i requires 0 <= i < |vertices| =>
      Point(vertices[i].x + d.x, vertices[i].y + d.y, vertices[i].z + d.z))
  }

  /** Every coordinate multiplied by the factor of its axis (`scale`, `scalex`, `scaley`, `scalez`). */
  function Scaled(vertices: seq<Point>, s: Point): (r: seq<Point>)
    ensures |r| == |vertices|
  {
    seq(|vertices|, i requires 0 <= i < |vertices| =>
      Point(vertices[i].x * s.x, vertices[i].y * s.y, vertices[i].z * s.z))
  }

  /** A translation is undone by the opposite translation. */
  lemma ShiftedBack(vertices: seq<Point>, d: Point)
    ensures Shifted(Shifted(vertices, d), Point(-d.x, -d.y, -d.z)) == vertices
  {
    var back := Shifted(Shifted(vertices, d), Point(-d.x, -d.y, -d.z));
    forall i | 0 <= i < |vertices| ensures back[i] == vertices[i] {
      assert back[i] == Point(vertices[i].x + d.x - d.x, vertices[i].y + d.y - d.y, vertices[i].z + d.z - d.z);
    }
  }

  /** A scaling by positive factors is undone by the inverse factors. */
  lemma ScaledBack(vertices: seq<Point>, s: Point)
    requires 0.0 < s.x && 0.0 < s.y && 0.0 < s.z
    ensures Scaled(Scaled(vertices, s), Point(1.0 / s.x, 1.0 / s.y, 1.0 / s.z)) == vertices
  {
    var inv := Point(1.0 / s.x, 1.0 / s.y, 1.0 / s.z);
    var back := Scaled(Scaled(vertices, s), inv);
    forall i | 0 <= i < |vertices| ensures back[i] == vertices[i] {
      var p := vertices[i];
      assert p.x * s.x * (1.0 / s.x) == p.x;
      assert p.y * s.y * (1.0 / s.y) == p.y;
      assert p.z * s.z * (1.0 / s.z) == p.z;
    }
  }

  /** The vector from `p` to `q`. */
  function Diff(q: Point, p: Point): Point {
    Point(q.x - p.x, q.y - p.y, q.z - p.z)
  }

  /** The squared length of a vector. */
  function NormSq(u: Point): real {
    u.x * u.x + u.y * u.y + u.z * u.z
  }

  /** The squared distance between two points. */
  function DistSq(p: Point, q: Point): real {
    NormSq(Diff(p, q))
  }

  /** The triple product `u . (v x w)`. */
  function Triple(u: Point, v: Point, w: Point): real {
    u.x * (v.y * w.z - v.z * w.y) + u.y * (v.z * w.x - v.x * w.z) + u.z * (v.x * w.y - v.y * w.x)
  }

  /** Six times the signed volume of the tetrahedron `p q r s`. */
  function Volume(p: Point, q: Point, r: Point, s: Point): real {
    Triple(Diff(q, p), Diff(r, p), Diff(s, p))
  }

  /** `image` keeps every distance between vertices. */
  predicate Isometric(vertices: seq<Point>, image: seq<Point>)
    requires |image| == |vertices|
  {
    forall i, j :: 0 <= i < |vertices| && 0 <= j < |vertices| ==>
      DistSq(image[i], image[j]) == DistSq(vertices[i], vertices[j])
  }

  /** `image` keeps the orientation of every four vertices. */
  predicate Oriented(vertices: seq<Point>, image: seq<Point>)
    requires |image| == |vertices|
  {
    forall i, j, k, l :: 0 <= i < |vertices| && 0 <= j < |vertices| && 0 <= k < |vertices| && 0 <= l < |vertices| ==>
      Volume(image[i], image[j], image[k], image[l]) == Volume(vertices[i], vertices[j], vertices[k], vertices[l])
  }

  /** Two vertices whose distance changes make an image that is not isometric. */
  lemma MovedApart(vertices: seq<Point>, image: seq<Point>, i: nat, j: nat)
    requires |image| == |vertices| && i < |vertices| && j < |vertices|
    requires DistSq(image[i], image[j]) != DistSq(vertices[i], vertices[j])
    ensures !Isometric(vertices, image)
  {
  }

  /**
   * `image` keeps every distance and every orientation between vertices, as a
   * rotation or a translation does (a reflection keeps the distances only): the
   * areas and radiuses of any row are the same on both, and its normal and center
   * move with the vertices.
   */
  predicate Rigid(vertices: seq<Point>, image: seq<Point>) {
    |image| == |vertices| && Isometric(vertices, image) && Oriented(vertices, image)
  }

  /** Two points moved by the same translation keep their difference. */
  lemma ShiftedDifference(vertices: seq<Point>, d: Point, i: nat, j: nat)
    requires i < |vertices| && j < |vertices|
    ensures Diff(Shifted(vertices, d)[j], Shifted(vertices, d)[i]) == Diff(vertices[j], vertices[i])
  {
  }

  /** A translation keeps every distance and every orientation. */
  lemma ShiftedIsRigid(vertices: seq<Point>, d: Point)
    ensures Rigid(vertices, Shifted(vertices, d))
  {
    var image := Shifted(vertices, d);
    forall i, j | 0 <= i < |vertices| && 0 <= j < |vertices|
      ensures DistSq(image[i], image[j]) == DistSq(vertices[i], vertices[j])
    {
      ShiftedDifference(vertices, d, j, i);
      assert Diff(image[i], image[j]) == Diff(vertices[i], vertices[j]);
    }
    forall i, j, k, l | 0 <= i < |vertices| && 0 <= j < |vertices| && 0 <= k < |vertices| && 0 <= l < |vertices|
      ensures Volume(image[i], image[j], image[k], image[l]) == Volume(vertices[i], vertices[j], vertices[k], vertices[l])
    {
      ShiftedDifference(vertices, d, i, j);
      ShiftedDifference(vertices, d, i, k);
      ShiftedDifference(vertices, d, i, l);
      assert Diff(image[j], image[i]) == Diff(vertices[j], vertices[i]);
      assert Diff(image[k], image[i]) == Diff(vertices[k], vertices[i]);
      assert Diff(image[l], image[i]) == Diff(vertices[l], vertices[i]);
    }
  }

  /** `type_cell` of `heal_normals`: 3 for the listed triangle ids, 4 for every other row. */
  function CellArity(nf: nat, triangles: seq<nat>): (arity: seq<nat>)
    ensures |arity| == nf
  {
    seq(nf, f requires 0 <= f < nf => if f in triangles then 3 else 4)
  }

  /**
   * Built from the triangle ids of the rows themselves, `type_cell` gives every row
   * the cycle length of its own encoding, and only the values 3 and 4.
   */
  lemma CellArityOfRows(faces: seq<Face>)
    ensures var arity := CellArity(|faces|, TrianglesOf(faces));
      && (forall f :: 0 <= f < |faces| ==> arity[f] == Arity(faces[f]))
      && forall f :: 0 <= f < |faces| ==> arity[f] == 3 || arity[f] == 4
  {
    Classification(faces);
  }

  // ---------------------------------------------------------------------------
  // What each group of entries agrees with
  // ---------------------------------------------------------------------------

  /** Cached ids are the classification of the current rows. */
  predicate ShapesAgree(faces: seq<Face>, c: Cache, triangles: seq<nat>, quadrangles: seq<nat>) {
    c.trianglesIds ==> triangles == TrianglesOf(faces) && quadrangles == QuadranglesOf(faces)
  }

  /**
   * `m` is what `_connectivity` computed for `rows`, rows that `faces` equal up to
   * reversing some of them; when its boundary edges form disjoint cycles every edge
   * lies on a stored loop.
   */
  ghost predicate Connected(faces: seq<Face>, nv: nat, m: Maps, rows: seq<Face>, edges: map<nat, nat>) {
    && ConnectivityOf(rows, nv, m, edges) && Reoriented(rows, faces)
    && (Permutation(edges) ==> forall o :: o in edges ==> IsOrigin(m.boundaries, o))
  }

  /**
   * `Connected` for the recorded edges, stated through a quantifier so that a proof
   * sees the facts only where it names `Connected` for those edges.
   */
  ghost predicate Recorded(faces: seq<Face>, nv: nat, m: Maps, rows: seq<Face>, edges: map<nat, nat>) {
    forall e :: e == edges ==> Connected(faces, nv, m, rows, e)
  }

  /** Cached connectivity was computed for the current rows up to reversing some of them. */
  ghost predicate ConnectivityAgrees(faces: seq<Face>, nv: nat, c: Cache, m: Maps, rows: seq<Face>, edges: map<nat, nat>) {
    c.vertexVertices ==> Recorded(faces, nv, m, rows, edges)
  }

  /**
   * `_connectivity` as the cache records it: `KeyError` exactly when a row names a
   * missing vertex, and on success the entries `Connected` to the rows it ran on.
   */
  method RunConnectivity(faces: seq<Face>, nv: nat) returns (r: Outcome<Maps>, edges: map<nat, nat>)
    ensures (r.Failure? && r.error == MissingVertex) <==> !InBounds(faces, nv)
    ensures r.Success? ==> Recorded(faces, nv, r.value, faces, edges)
  {
    r, edges := Compute(faces, nv);
    if r.Success? {
      assert Connected(faces, nv, r.value, faces, edges);
    }
  }

  /**
   * What each floating-point entry was computed from: the outlines for the areas
   * and centers, the radiuses and the surface integrals, the corners in their order
   * for the normals, whose sign follows the winding of the row.
   */
  datatype Basis = Basis(properties: seq<Outline>, normals: seq<seq<Point>>, radiuses: seq<Outline>, integrals: seq<Outline>)

  /** Every cached geometric entry was computed from the current corners. */
  ghost predicate GeometryAgrees(vertices: seq<Point>, faces: seq<Face>, c: Cache, basis: Basis) {
    && (c.facesAreas || c.facesRadiuses || c.surfaceIntegrals ==> InBounds(faces, |vertices|))
    && (c.facesAreas ==> basis.properties == Outlines(vertices, faces) && basis.normals == Corners(vertices, faces))
    && (c.facesRadiuses ==> basis.radiuses == Outlines(vertices, faces))
    && (c.surfaceIntegrals ==> basis.integrals == Outlines(vertices, faces))
  }

  /** Every entry computed from the current corners. */
  function Rebased(vertices: seq<Point>, faces: seq<Face>): Basis {
    var o := Outlines(vertices, faces);
    Basis(o, Corners(vertices, faces), o, o)
  }

  /** Reversing rows keeps their entries, so the bound on the indices survives. */
  lemma ReorientedInBounds(rows: seq<Face>, faces: seq<Face>, nv: nat)
    requires Reoriented(rows, faces)
    ensures InBounds(rows, nv) <==> InBounds(faces, nv)
  {
    forall f | 0 <= f < |faces| ensures multiset(faces[f]) == multiset(rows[f]) {
      ReverseKeepsShape(rows[f]);
    }
    if InBounds(rows, nv) {
      forall i, j | 0 <= i < |faces| && 0 <= j < 4 ensures faces[i][j] < nv {
        assert faces[i][j] in multiset(rows[i]);
      }
    }
    if InBounds(faces, nv) {
      forall i, j | 0 <= i < |rows| && 0 <= j < 4 ensures rows[i][j] < nv {
        assert rows[i][j] in multiset(faces[i]);
      }
    }
  }

  /** Reversing rows keeps every row's shape. */
  lemma ReorientedSameShapes(rows: seq<Face>, faces: seq<Face>)
    requires Reoriented(rows, faces)
    ensures SameShapes(rows, faces)
  {
    forall f | 0 <= f < |faces| ensures IsTriangle(rows[f]) <==> IsTriangle(faces[f]) {
      ReverseKeepsShape(rows[f]);
    }
  }

  /** Reoriented rows, reoriented once more, are still reoriented rows of the originals. */
  lemma ReorientedTwice(rows: seq<Face>, faces: seq<Face>, faces': seq<Face>)
    requires Reoriented(rows, faces) && Reoriented(faces, faces')
    ensures Reoriented(rows, faces')
  {
    forall f | 0 <= f < |faces'| ensures faces'[f] == rows[f] || faces'[f] == Reverse(rows[f]) {
      ReverseInvolution(rows[f]);
    }
  }

  /** Reversing some rows keeps the ids and the connectivity in agreement. */
  lemma ReorientedAgrees(vertices: seq<Point>, faces: seq<Face>, faces': seq<Face>, c: Cache,
                         triangles: seq<nat>, quadrangles: seq<nat>, m: Maps, rows: seq<Face>, edges: map<nat, nat>)
    requires Reoriented(faces, faces')
    requires ShapesAgree(faces, c, triangles, quadrangles)
    ensures ShapesAgree(faces', c, triangles, quadrangles)
    ensures ConnectivityAgrees(faces, |vertices|, c, m, rows, edges) ==> ConnectivityAgrees(faces', |vertices|, c, m, rows, edges)
  {
    ReorientedSameShapes(faces, faces');
    SameShapesClassifyAlike(faces, faces');
    if ConnectivityAgrees(faces, |vertices|, c, m, rows, edges) && c.vertexVertices {
      assert Connected(faces, |vertices|, m, rows, edges);
      ReorientedTwice(rows, faces, faces');
      assert Connected(faces', |vertices|, m, rows, edges);
    }
  }

  /**
   * After reversing some rows, with the normals negated along, the cached geometric
   * entries still agree exactly when none is cached or no outline changed.
   */
  lemma ReorientedGeometry(vertices: seq<Point>, faces: seq<Face>, faces': seq<Face>, c: Cache, basis: Basis)
    requires Reoriented(faces, faces')
    ensures GeometryAgrees(vertices, faces, c, basis) ==>
      (GeometryAgrees(vertices, faces', c, basis.(normals := Corners(vertices, faces'))) <==>
       !(c.facesAreas || c.facesRadiuses || c.surfaceIntegrals) || Outlines(vertices, faces') == Outlines(vertices, faces))
  {
    ReorientedInBounds(faces, faces', |vertices|);
  }

  /**
   * Once the face properties are gone, the radius and surface-integral entries kept
   * from rows `faces` still agree with rows `faces'` exactly when none is cached or no
   * outline changed.
   */
  lemma KeptGeometry(vertices: seq<Point>, faces: seq<Face>, faces': seq<Face>, c: Cache, c': Cache, basis: Basis, basis': Basis)
    requires InBounds(faces', |vertices|)
    requires !c'.facesAreas && (c'.facesRadiuses ==> c.facesRadiuses) && (c'.surfaceIntegrals ==> c.surfaceIntegrals)
    requires basis'.radiuses == basis.radiuses && basis'.integrals == basis.integrals
    ensures GeometryAgrees(vertices, faces, c, basis) ==>
      (GeometryAgrees(vertices, faces', c', basis') <==>
       !(c'.facesRadiuses || c'.surfaceIntegrals) || Outlines(vertices, faces') == Outlines(vertices, faces))
  {
  }

  /**
   * What cached connectivity says about the current rows: the same vertex maps and
   * face map, every index below `nv`, `f_f` symmetric and irreflexive, no loop on a
   * watertight surface, and, when the boundary edges form disjoint cycles, no loop
   * exactly when the surface is watertight.
   */
  lemma CachedConnectivity(faces: seq<Face>, nv: nat, m: Maps, rows: seq<Face>, edges: map<nat, nat>)
    requires Connected(faces, nv, m, rows, edges)
    ensures InBounds(faces, nv)
    ensures VertexMapsOf(faces, nv, m.vv, m.vf) && AdjacencyOf(faces, m.vv, m.vf, m.ff)
    ensures SymmetricFaces(m.ff, |faces|)
    ensures Watertight(m.vv, m.vf) ==> m.boundaries == []
    ensures Permutation(edges) ==> (m.boundaries == [] <==> Watertight(m.vv, m.vf))
  {
    ReorientedInBounds(rows, faces, nv);
    ReorientedKeepsMaps(rows, faces, nv, m);
    AdjacencySymmetric(faces, m.vv, m.vf, m.ff);
    NoEdgesIffWatertight(rows, m.vv, m.vf, edges);
    if m.boundaries != [] {
      assert Loop(m.boundaries[0], edges);
      assert m.boundaries[0][0] in edges;
    }
    if Permutation(edges) && edges != map[] {
      var o :| o in edges;
      assert IsOrigin(m.boundaries, o);
    }
  }

  // ---------------------------------------------------------------------------
  // Inputs on which an update that keeps an entry leaves it stale
  // ---------------------------------------------------------------------------

  /** Rolling the row `[0, 1, 2, 2]` turns a quadrangle into a triangle. */
  lemma HealingReclassifies()
    ensures var faces: seq<Face> := [[0, 1, 2, 2]];
      TrianglesOf(faces) == [] && TrianglesOf(HealRows(faces)) == [0]
  {
    var faces: seq<Face> := [[0, 1, 2, 2]];
    assert HealRows(faces)[0] == [2, 0, 1, 2];
    assert TriangleMask(faces) == [false];
    assert TriangleMask(HealRows(faces)) == [true];
    assert Where([false]) == Where([]) + [];
    assert Where([true]) == Where([]) + [0];
  }

  /** Merging vertex 3 into its duplicate 0 turns the quadrangle `[0, 1, 2, 3]` into a triangle. */
  lemma MergingReclassifies()
    ensures var faces: seq<Face> := [[0, 1, 2, 3]];
      var newId := [0, 1, 2, 0];
      InBounds(faces, |newId|) && TrianglesOf(faces) == [] && TrianglesOf(Relabel(faces, newId)) == [0]
  {
    var faces: seq<Face> := [[0, 1, 2, 3]];
    var newId := [0, 1, 2, 0];
    assert Relabel(faces, newId)[0] == [0, 1, 2, 0];
    assert Relabel(faces, newId) == [[0, 1, 2, 0]];
    assert TriangleMask(faces) == [false];
    assert TriangleMask([[0, 1, 2, 0]]) == [true];
    assert Where([false]) == Where([]) + [];
    assert Where([true]) == Where([]) + [0];
  }
}
