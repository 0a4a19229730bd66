/**
 * The `Mesh` class of meshmagick: a vertex array, a face array and the
 * `__internals__` cache of quantities derived from them.
 *
 * The class holds the arrays and the cached integer entries; the floating-point
 * entries are tracked by key only (see `MeshCache`).  `Valid()` says that every
 * cached entry agrees with the arrays: the triangle and quadrangle ids are the
 * classification of the rows, the connectivity maps are those of the rows up to
 * reversing some of them, and every geometric entry was computed from the current
 * corners.  Operations that write `self._faces` or `self._vertices` directly bypass
 * the setters and keep the cache; where the kept entries go stale the source
 * operation is modelled as written and a corrected operation beside it keeps
 * `Valid()`.
 */
module Meshes {
  import opened Faces
  import opened Renumber
  import opened Adjacency
  import opened Boundary
  import opened Connectivity
  import opened Flood
  import opened MeshCache

  datatype Option<T> = None | Some(value: T)

  /** Why `heal_normals` raised. */
  datatype HealError =
    | ConnectivityFailed(cause: ConnectivityError) // `_connectivity` raised
    | NoFace                                       // `f_vis[0] = True` on an empty face array
    | MissingBackPointer                           // `f_f[iadj_f].remove(iface)`: `KeyError`

  /** How `heal_normals` ended. */
  datatype Healing = Healed | Raised(error: HealError)

  /**
   * The keys the end of `heal_normals` leaves: the face properties and the surface
   * integrals go on a closed mesh, which computed the properties for its outwardness
   * test, and on an open one only when the face properties are cached.
   */
  function HealedKeys(c: Cache, closed: bool): Cache {
    if closed || c.facesAreas then WithProperties(c, false).(surfaceIntegrals := false) else c
  }

  class Mesh {
    var vertices: seq<Point>
    var faces: seq<Face>
    /** The keys present in `__internals__`. */
    var cache: Cache
    var triangles: seq<nat>
    var quadrangles: seq<nat>
    var conn: Maps
    /** The rows `_connectivity` last ran on, and the boundary edges it walked. */
    ghost var connRows: seq<Face>
    ghost var connEdges: map<nat, nat>
    /** The corners each cached geometric entry was computed from. */
    ghost var basis: Basis

    /** Every cached entry agrees with the arrays. */
    ghost predicate Valid()
      reads this
    {
      && Grouped(cache)
      && ShapesAgree(faces, cache, triangles, quadrangles)
      && ConnectivityAgrees(faces, |vertices|, cache, conn, connRows, connEdges)
      && GeometryAgrees(vertices, faces, cache, basis)
    }

    /**
     * What the flood of `heal_normals` needs: grouped keys, current ids, and a cached
     * `f_f` (if any) that has a set per face naming faces only.
     */
    ghost predicate Floodable()
      reads this
    {
      && Grouped(cache)
      && ShapesAgree(faces, cache, triangles, quadrangles)
      && (cache.vertexVertices ==> FaceMap(conn.ff, |faces|) && InBounds(faces, |vertices|))
    }

    twostate predicate SameMaps()
      reads this
    {
      conn == old(conn) && connRows == old(connRows) && connEdges == old(connEdges)
    }

    twostate predicate SameIds()
      reads this
    {
      triangles == old(triangles) && quadrangles == old(quadrangles)
    }

    /** `__init__`: the arrays as given, an empty cache. */
    constructor (vertices: seq<Point>, faces: seq<Face>)
      ensures Valid()
      ensures this.vertices == vertices && this.faces == faces && cache == Empty
    {
      this.vertices := vertices;
      this.faces := faces;
      cache := Empty;
      triangles, quadrangles := [], [];
      conn := Maps([], [], [], []);
      connRows, connEdges := [], map[];
      basis := Rebased([], []);
    }

    /** The `vertices` setter: new coordinates, and the cache cleared. */
    method SetVertices(value: seq<Point>)
      modifies this
      ensures Valid()
      ensures vertices == value && faces == old(faces) && cache == Empty
    {
      vertices := value;
      cache := Empty;
    }

    /** The `faces` setter: new rows, and the cache cleared. */
    method SetFaces(value: seq<Face>)
      modifies this
      ensures Valid()
      ensures faces == value && vertices == old(vertices) && cache == Empty
    {
      faces := value;
      cache := Empty;
    }

    /** A valid mesh can be flooded. */
    lemma ValidIsFloodable()
      requires Valid()
      ensures Floodable()
    {
      if cache.vertexVertices {
        CachedConnectivity(faces, |vertices|, conn, connRows, connEdges);
      }
    }

    // -------------------------------------------------------------------------
    // _has_* and _remove_*
    // -------------------------------------------------------------------------

    /** `_has_faces_properties` tests one key and thereby the whole group. */
    predicate HasFacesProperties(): (r: bool)
      reads this
      ensures Grouped(cache) ==> (r <==> cache.facesAreas && cache.facesNormals && cache.facesCenters)
    {
      cache.facesAreas
    }

    /** `_has_triangles_quadrangles` tests one key and thereby the whole group. */
    predicate HasTrianglesQuadrangles(): (r: bool)
      reads this
      ensures Grouped(cache) ==> (r <==> cache.trianglesIds && cache.quadranglesIds)
    {
      cache.trianglesIds
    }

    /** `_has_connectivity` tests one key and thereby the whole group. */
    predicate HasConnectivity(): (r: bool)
      reads this
      ensures Grouped(cache) ==> (r <==> cache.vertexVertices && cache.vertexFaces && cache.faceFaces && cache.boundaries)
    {
      cache.vertexVertices
    }

    /** `_remove_faces_properties`: areas, normals and centers go, and the surface integrals with them. */
    method RemoveFacesProperties()
      requires Grouped(cache)
      modifies this
      ensures Grouped(cache)
      ensures cache == WithProperties(old(cache), false).(surfaceIntegrals := false)
      ensures vertices == old(vertices) && faces == old(faces) && basis == old(basis) && SameMaps() && SameIds()
      ensures old(Valid()) ==> Valid()
    {
      if cache.facesAreas {
        cache := WithProperties(cache, false);
      }
      if cache.surfaceIntegrals {
        cache := cache.(surfaceIntegrals := false);
      }
    }

    /** `_remove_triangles_quadrangles`. */
    method RemoveTrianglesQuadrangles()
      requires Grouped(cache)
      modifies this
      ensures Grouped(cache)
      ensures cache == WithShapes(old(cache), false)
      ensures vertices == old(vertices) && faces == old(faces) && basis == old(basis) && SameMaps() && SameIds()
      ensures old(Valid()) ==> Valid()
    {
      if cache.trianglesIds {
        cache := WithShapes(cache, false);
      }
    }

    /** `_remove_connectivity`. */
    method RemoveConnectivity()
      requires Grouped(cache)
      modifies this
      ensures Grouped(cache)
      ensures cache == WithConnectivity(old(cache), false)
      ensures vertices == old(vertices) && faces == old(faces) && basis == old(basis) && SameMaps() && SameIds()
      ensures ShapesAgree(faces, cache, triangles, quadrangles) == old(ShapesAgree(faces, cache, triangles, quadrangles))
      ensures GeometryAgrees(vertices, faces, cache, basis) == old(GeometryAgrees(vertices, faces, cache, basis))
      ensures ConnectivityAgrees(faces, |vertices|, cache, conn, connRows, connEdges)
      ensures old(Valid()) ==> Valid()
    {
      if cache.vertexVertices {
        cache := WithConnectivity(cache, false);
      }
    }

    /** `_remove_surface_integrals`. */
    method RemoveSurfaceIntegrals()
      requires Grouped(cache)
      modifies this
      ensures Grouped(cache)
      ensures cache == old(cache).(surfaceIntegrals := false)
      ensures vertices == old(vertices) && faces == old(faces) && basis == old(basis) && SameMaps() && SameIds()
      ensures old(Valid()) ==> Valid()
    {
      if cache.surfaceIntegrals {
        cache := cache.(surfaceIntegrals := false);
      }
    }

    /**
     * Every entry that depends on the coordinates goes, and the others stay in
     * agreement; what the corrected operations do where an entry would go stale.
     */
    method RemoveGeometry()
      requires Grouped(cache)
      modifies this
      ensures cache == WithoutGeometry(old(cache))
      ensures vertices == old(vertices) && faces == old(faces) && basis == old(basis) && SameMaps() && SameIds()
      ensures Grouped(cache) && GeometryAgrees(vertices, faces, cache, basis)
      ensures old(ShapesAgree(faces, cache, triangles, quadrangles)) ==> ShapesAgree(faces, cache, triangles, quadrangles)
      ensures old(ConnectivityAgrees(faces, |vertices|, cache, conn, connRows, connEdges)) ==>
        ConnectivityAgrees(faces, |vertices|, cache, conn, connRows, connEdges)
    {
      cache := WithoutGeometry(cache);
    }

    // -------------------------------------------------------------------------
    // Triangles and quadrangles
    // -------------------------------------------------------------------------

    /**
     * `_triangles_quadrangles`: stores the ids of the triangle rows and of the other
     * rows, both ascending, splitting `0 .. nb_faces-1` between them.
     */
    method TrianglesQuadrangles()
      modifies this
      ensures cache == WithShapes(old(cache), true)
      ensures triangles == TrianglesOf(faces) && quadrangles == QuadranglesOf(faces)
      ensures Partition(triangles, quadrangles, |faces|)
      ensures forall i :: 0 <= i < |faces| ==> (i in triangles <==> IsTriangle(faces[i]))
      ensures vertices == old(vertices) && faces == old(faces) && basis == old(basis) && SameMaps()
      ensures old(Valid()) ==> Valid()
      ensures old(Floodable()) ==> Floodable()
    {
      Classification(faces);
      triangles := TrianglesOf(faces);
      quadrangles := QuadranglesOf(faces);
      cache := WithShapes(cache, true);
      assert (cache.vertexVertices) == (old(cache).vertexVertices);
    }

    /** `triangles_ids`: the ids of exactly the triangle rows, ascending; computed and cached when missing. */
    method GetTrianglesIds() returns (ids: seq<nat>)
      requires Valid()
      modifies this
      ensures Valid() && cache == WithShapes(old(cache), true)
      ensures vertices == old(vertices) && faces == old(faces)
      ensures ids == TrianglesOf(faces) && Increasing(ids)
      ensures forall i :: 0 <= i < |faces| ==> (i in ids <==> IsTriangle(faces[i]))
    {
      if !cache.trianglesIds {
        TrianglesQuadrangles();
      }
      Classification(faces);
      ids := triangles;
    }

    /** `quadrangles_ids`: the ids of exactly the other rows, ascending. */
    method GetQuadranglesIds() returns (ids: seq<nat>)
      requires Valid()
      modifies this
      ensures Valid() && cache == WithShapes(old(cache), true)
      ensures vertices == old(vertices) && faces == old(faces)
      ensures ids == QuadranglesOf(faces) && Increasing(ids)
      ensures forall i :: 0 <= i < |faces| ==> (i in ids <==> !IsTriangle(faces[i]))
    {
      if !cache.trianglesIds {
        TrianglesQuadrangles();
      }
      Classification(faces);
      ids := quadrangles;
    }

    /** `nb_triangles`; with `nb_quadrangles` it counts every face. */
    method NbTriangles() returns (n: nat)
      requires Valid()
      modifies this
      ensures Valid() && cache == WithShapes(old(cache), true)
      ensures vertices == old(vertices) && faces == old(faces)
      ensures n == |TrianglesOf(faces)| && n + |QuadranglesOf(faces)| == |faces|
    {
      if !cache.trianglesIds {
        TrianglesQuadrangles();
      }
      Classification(faces);
      n := |triangles|;
    }

    /** `nb_quadrangles`; with `nb_triangles` it counts every face. */
    method NbQuadrangles() returns (n: nat)
      requires Valid()
      modifies this
      ensures Valid() && cache == WithShapes(old(cache), true)
      ensures vertices == old(vertices) && faces == old(faces)
      ensures n == |QuadranglesOf(faces)| && |TrianglesOf(faces)| + n == |faces|
    {
      if !cache.trianglesIds {
        TrianglesQuadrangles();
      }
      Classification(faces);
      n := |quadrangles|;
    }

    /** `is_triangle` (which asserts the id is a face id): the row is listed among the triangle ids. */
    predicate IsTriangleAt(i: nat): (r: bool)
      requires i < |faces|
      reads this
      ensures r <==> i in TrianglesOf(faces)
    {
      Classification(faces);
      IsTriangle(faces[i])
    }

    /** `get_face`: three indices for a triangle, four otherwise, holding exactly the row's indices. */
    function GetFace(i: nat): (r: seq<nat>)
      requires i < |faces|
      reads this
      ensures |r| == (if IsTriangleAt(i) then 3 else 4)
      ensures forall k :: 0 <= k < |r| ==> r[k] == faces[i][k]
      ensures forall v :: v in r <==> v in faces[i]
    {
      CycleHasRowVertices(faces[i]);
      assert forall v :: v in Cycle(faces[i]) <==> v in multiset(Cycle(faces[i]));
      assert forall v :: v in faces[i] <==> v in multiset(faces[i]);
      Cycle(faces[i])
    }

    // -------------------------------------------------------------------------
    // Connectivity
    // -------------------------------------------------------------------------

    /** The accessors' common step: `_connectivity` runs when `v_v` is missing. */
    method Connect() returns (r: Outcome<Maps>)
      modifies this
      ensures vertices == old(vertices) && faces == old(faces) && basis == old(basis) && SameIds()
      ensures old(cache).vertexVertices ==> r == Success(conn) && cache == old(cache) && SameMaps()
      ensures !old(cache).vertexVertices && r.Failure? ==>
        && cache == old(cache) && SameMaps()
        && (r.error == MissingVertex <==> !InBounds(faces, |vertices|))
      ensures !old(cache).vertexVertices && r.Success? ==>
        && cache == WithConnectivity(old(cache), true) && r.value == conn && connRows == faces
        && Recorded(faces, |vertices|, conn, connRows, connEdges)
      ensures old(Valid()) ==> Valid()
      ensures old(Floodable()) ==> Floodable()
    {
      if cache.vertexVertices {
        return Success(conn);
      }
      var edges;
      r, edges := RunConnectivity(faces, |vertices|);
      if r.Success? {
        CachedConnectivity(faces, |vertices|, r.value, faces, edges);
        conn := r.value;
        connRows, connEdges := faces, edges;
        cache := WithConnectivity(cache, true);
      }
    }

    /**
     * `vv`, `vf`, `ff`, `boundaries`: the cached maps, computed when missing.  They
     * fail exactly as `_connectivity` does (with `KeyError` exactly when a row names
     * a missing vertex) and leave the cache as it was; otherwise they are the vertex
     * maps and the face map of the current rows, `f_f` symmetric and irreflexive, no
     * loop on a watertight surface, and, when the boundary edges form disjoint cycles,
     * no loop exactly when the surface is watertight.
     */
    method ConnectivityMaps() returns (r: Outcome<Maps>)
      requires Valid()
      modifies this
      ensures Valid() && vertices == old(vertices) && faces == old(faces)
      ensures old(cache).vertexVertices ==> r == Success(old(conn)) && cache == old(cache)
      ensures r.Failure? ==> !old(cache).vertexVertices && cache == old(cache)
      ensures r.Success? ==> cache == WithConnectivity(old(cache), true) && r.value == conn
      ensures (r.Failure? && r.error == MissingVertex) <==> !InBounds(faces, |vertices|)
      ensures r.Success? ==>
        && VertexMapsOf(faces, |vertices|, conn.vv, conn.vf) && AdjacencyOf(faces, conn.vv, conn.vf, conn.ff)
        && SymmetricFaces(conn.ff, |faces|)
        && (Watertight(conn.vv, conn.vf) ==> conn.boundaries == [])
        && (Permutation(connEdges) ==> (conn.boundaries == [] <==> Watertight(conn.vv, conn.vf)))
    {
      r := Connect();
      if r.Success? {
        CachedConnectivity(faces, |vertices|, conn, connRows, connEdges);
      }
    }

    /** `nb_boundaries`: the number of stored loops. */
    method NbBoundaries() returns (r: Outcome<nat>)
      requires Valid()
      modifies this
      ensures Valid() && vertices == old(vertices) && faces == old(faces)
      ensures r.Failure? ==> !old(cache).vertexVertices && cache == old(cache)
      ensures (r.Failure? && r.error == MissingVertex) <==> !InBounds(faces, |vertices|)
      ensures r.Success? ==> cache == WithConnectivity(old(cache), true) && r.value == |conn.boundaries|
      ensures r.Success? && Watertight(conn.vv, conn.vf) ==> r.value == 0
    {
      var maps := ConnectivityMaps();
      match maps
      case Success(m) => r := Success(|m.boundaries|);
      case Failure(e) => r := Failure(e);
    }

    /**
     * `is_mesh_closed`: no stored loop.  A watertight surface is closed; when the
     * boundary edges form disjoint cycles, the mesh is closed exactly when watertight.
     */
    method IsMeshClosed() returns (r: Outcome<bool>)
      requires Valid()
      modifies this
      ensures Valid() && vertices == old(vertices) && faces == old(faces)
      ensures r.Failure? ==> !old(cache).vertexVertices && cache == old(cache)
      ensures (r.Failure? && r.error == MissingVertex) <==> !InBounds(faces, |vertices|)
      ensures r.Success? ==> cache == WithConnectivity(old(cache), true) && (r.value <==> conn.boundaries == [])
      ensures r.Success? && Watertight(conn.vv, conn.vf) ==> r.value
      ensures r.Success? && Permutation(connEdges) ==> (r.value <==> Watertight(conn.vv, conn.vf))
    {
      var maps := ConnectivityMaps();
      match maps
      case Success(m) => r := Success(|m.boundaries| == 0);
      case Failure(e) => r := Failure(e);
    }

    // -------------------------------------------------------------------------
    // Geometric entries
    // -------------------------------------------------------------------------

    /**
     * `faces_areas`, `faces_normals`, `faces_centers` (`_faces_properties` when
     * missing): the ids are cached on the way; the computation indexes the vertex
     * array with every row and fails with `IndexError` exactly when a row names a
     * missing vertex.
     */
    method FacesProperties() returns (ok: bool)
      requires Valid()
      modifies this
      ensures Valid() && vertices == old(vertices) && faces == old(faces)
      ensures ok <==> InBounds(faces, |vertices|)
      ensures old(cache).facesAreas ==> cache == old(cache)
      ensures !old(cache).facesAreas ==> cache == WithProperties(WithShapes(old(cache), true), ok)
    {
      if cache.facesAreas {
        return true;
      }
      var ids := GetTrianglesIds();
      ok := InBounds(faces, |vertices|);
      if ok {
        basis := basis.(properties := Outlines(vertices, faces), normals := Corners(vertices, faces));
        cache := WithProperties(cache, true);
      }
    }

    /**
     * `faces_radiuses` (`_compute_radiuses` when missing): indexes the vertex array
     * first, then reads the centers, computing the face properties when missing.
     */
    method GetFacesRadiuses() returns (ok: bool)
      requires Valid()
      modifies this
      ensures Valid() && vertices == old(vertices) && faces == old(faces)
      ensures ok <==> InBounds(faces, |vertices|)
      ensures old(cache).facesRadiuses || !ok ==> cache == old(cache)
      ensures !old(cache).facesRadiuses && ok ==>
        cache == (if old(cache).facesCenters then old(cache) else WithProperties(WithShapes(old(cache), true), true)).(facesRadiuses := true)
    {
      if cache.facesRadiuses {
        return true;
      }
      ok := InBounds(faces, |vertices|);
      if !ok {
        return;
      }
      ok := FacesProperties();
      basis := basis.(radiuses := Outlines(vertices, faces));
      cache := cache.(facesRadiuses := true);
    }

    /**
     * `get_surface_integrals` (`_compute_faces_integrals` when missing): the ids are
     * cached on the way, then the rows index the vertex array.
     */
    method GetSurfaceIntegrals() returns (ok: bool)
      requires Valid()
      modifies this
      ensures Valid() && vertices == old(vertices) && faces == old(faces)
      ensures ok <==> InBounds(faces, |vertices|)
      ensures old(cache).surfaceIntegrals ==> cache == old(cache)
      ensures !old(cache).surfaceIntegrals ==>
        cache == WithShapes(old(cache), true).(surfaceIntegrals := ok)
    {
      if cache.surfaceIntegrals {
        return true;
      }
      var n := NbTriangles();
      ok := InBounds(faces, |vertices|);
      if ok {
        basis := basis.(integrals := Outlines(vertices, faces));
        cache := cache.(surfaceIntegrals := true);
      }
    }

    // -------------------------------------------------------------------------
    // Rigid motions and scalings
    // -------------------------------------------------------------------------

    /**
     * `rotate`: the surface integrals go first; a zero angle vector leaves the mesh
     * alone, otherwise the vertices become their images `rotated` under the rotation
     * the angles define, which keeps every distance, and every other entry is kept
     * (normals and centers rotated with the vertices, the rest invariant under
     * rotation).
     */
    method Rotate(angles: Point, rotated: seq<Point>)
      requires Valid() && Rigid(vertices, rotated)
      modifies this
      ensures Valid() && faces == old(faces) && cache == old(cache).(surfaceIntegrals := false)
      ensures vertices == if angles == Point(0.0, 0.0, 0.0) then old(vertices) else rotated
      ensures Rigid(old(vertices), vertices)
    {
      RemoveSurfaceIntegrals();
      if angles == Point(0.0, 0.0, 0.0) {
        return;
      }
      vertices := rotated;
      basis := Rebased(vertices, faces);
    }

    /**
     * `translate_x`, `translate_y`, `translate_z` (with `d` zero on the other two
     * axes): the vertices move, the cache is kept with the centers moved along, and
     * the surface integrals go.
     */
    method TranslateAlong(d: Point)
      requires Valid()
      modifies this
      ensures Valid() && faces == old(faces) && cache == old(cache).(surfaceIntegrals := false)
      ensures vertices == Shifted(old(vertices), d) && Rigid(old(vertices), vertices)
    {
      ShiftedIsRigid(vertices, d);
      vertices := Shifted(vertices, d);
      basis := Rebased(vertices, faces);
      RemoveSurfaceIntegrals();
    }

    /** `translate`: assigns through the `vertices` setter, so the whole cache goes. */
    method Translate(t: Point)
      requires Valid()
      modifies this
      ensures Valid() && faces == old(faces) && cache == Empty
      ensures vertices == Shifted(old(vertices), t)
    {
      SetVertices(Shifted(vertices, t));
      RemoveFacesProperties();
      RemoveSurfaceIntegrals();
    }

    /**
     * `scale`, `scalex`, `scaley`, `scalez` as written (factors `(a, a, a)`,
     * `(a, 1, 1)`, ...): the face properties and the surface integrals go only when
     * the face properties are cached, and the radiuses always stay, as do the ids and
     * the connectivity.  The mesh stays valid exactly when no kept radius or
     * surface-integral entry was computed from an outline the scaling moved.
     */
    method ScaleAsWritten(s: Point)
      requires Valid() && 0.0 < s.x && 0.0 < s.y && 0.0 < s.z
      modifies this
      ensures vertices == Scaled(old(vertices), s) && faces == old(faces) && SameIds() && SameMaps()
      ensures cache == if old(cache).facesAreas then WithProperties(old(cache), false).(surfaceIntegrals := false) else old(cache)
      ensures Valid() <==>
        !(cache.facesRadiuses || cache.surfaceIntegrals) || Outlines(vertices, faces) == Outlines(old(vertices), faces)
    {
      vertices := Scaled(vertices, s);
      if cache.facesAreas {
        RemoveFacesProperties();
      }
    }

    /** `scale` and friends, dropping every entry that depends on the coordinates. */
    method Scale(s: Point)
      requires Valid() && 0.0 < s.x && 0.0 < s.y && 0.0 < s.z
      modifies this
      ensures Valid()
      ensures vertices == Scaled(old(vertices), s) && faces == old(faces)
      ensures cache == WithoutGeometry(old(cache))
    {
      vertices := Scaled(vertices, s);
      cache := WithoutGeometry(cache);
    }

    // -------------------------------------------------------------------------
    // Row rewrites
    // -------------------------------------------------------------------------

    /**
     * `flip_normals` as written: every row reversed (so every row keeps its shape and
     * its entries, and flipping twice restores the rows); the surface integrals go,
     * the normals are negated along, and the areas, centers and radiuses stay.  Those
     * were computed along the old split diagonals, so the mesh stays valid exactly
     * when none of them is cached or no outline moved, as on a mesh of triangles.
     */
    method FlipNormalsAsWritten()
      requires Grouped(cache) && ShapesAgree(faces, cache, triangles, quadrangles)
      modifies this
      ensures vertices == old(vertices) && cache == old(cache).(surfaceIntegrals := false) && SameIds() && SameMaps()
      ensures faces == FlipAll(old(faces)) && Reoriented(old(faces), faces) && SameShapes(old(faces), faces)
      ensures basis == old(basis).(normals := Corners(vertices, faces))
      ensures Grouped(cache) && ShapesAgree(faces, cache, triangles, quadrangles)
      ensures InBounds(faces, |vertices|) <==> old(InBounds(faces, |vertices|))
      ensures old(ConnectivityAgrees(faces, |vertices|, cache, conn, connRows, connEdges)) ==>
        ConnectivityAgrees(faces, |vertices|, cache, conn, connRows, connEdges)
      ensures old(Valid()) ==>
        (Valid() <==> !(cache.facesAreas || cache.facesRadiuses) || Outlines(vertices, faces) == Outlines(vertices, old(faces)))
      ensures old(Valid()) && AllTriangles(old(faces)) ==> Valid()
    {
      ReorientedGeometry(vertices, faces, FlipAll(faces), cache.(surfaceIntegrals := false), basis);
      FlippedTrianglesKeepOutlines(vertices, faces);
      ReverseRows();
      cache := cache.(surfaceIntegrals := false);
      if old(Valid()) {
        assert Grouped(cache) && ShapesAgree(faces, cache, triangles, quadrangles);
        assert ConnectivityAgrees(faces, |vertices|, cache, conn, connRows, connEdges);
        assert GeometryAgrees(vertices, faces, cache, basis) <==>
          !(cache.facesAreas || cache.facesRadiuses) || Outlines(vertices, faces) == Outlines(vertices, old(faces));
      }
    }

    /** The rows of `flip_normals` written back, the cached normals (if any) negated along. */
    method ReverseRows()
      requires ShapesAgree(faces, cache, triangles, quadrangles)
      modifies this
      ensures faces == FlipAll(old(faces)) && Reoriented(old(faces), faces) && SameShapes(old(faces), faces)
      ensures vertices == old(vertices) && cache == old(cache) && SameIds() && SameMaps()
      ensures basis == old(basis).(normals := Corners(vertices, faces))
      ensures ShapesAgree(faces, cache, triangles, quadrangles)
      ensures InBounds(faces, |vertices|) <==> old(InBounds(faces, |vertices|))
      ensures old(ConnectivityAgrees(faces, |vertices|, cache, conn, connRows, connEdges)) ==>
        ConnectivityAgrees(faces, |vertices|, cache, conn, connRows, connEdges)
    {
      var flipped := FlipAll(faces);
      ReorientedSameShapes(faces, flipped);
      ReorientedInBounds(faces, flipped, |vertices|);
      ReorientedAgrees(vertices, faces, flipped, cache, triangles, quadrangles, conn, connRows, connEdges);
      faces := flipped;
      basis := basis.(normals := Corners(vertices, faces));
    }

    /**
     * `flip_normals` keeping only what the reversal leaves right: as written when no
     * outline moved, and otherwise every geometric entry goes.  The mesh stays valid.
     */
    method FlipNormals()
      requires Valid()
      modifies this
      ensures Valid() && vertices == old(vertices) && SameIds() && SameMaps()
      ensures faces == FlipAll(old(faces)) && SameShapes(old(faces), faces)
      ensures cache == if Outlines(vertices, faces) == Outlines(vertices, old(faces))
        then old(cache).(surfaceIntegrals := false) else WithoutGeometry(old(cache))
    {
      var before := faces;
      FlipNormalsAsWritten();
      if Outlines(vertices, faces) != Outlines(vertices, before) {
        cache := WithoutGeometry(cache);
      }
    }

    /**
     * `heal_triangles` as written: rolls every row that is not a triangle, three
     * passes, writing the rows back without the setter.  The face properties (and the
     * surface integrals) go only when cached; ids, connectivity and radiuses stay.
     * When a roll changed which rows are triangles, the kept ids make the mesh
     * invalid, and so does a kept radius or surface-integral entry of a row whose
     * outline the roll moved.
     */
    method HealTrianglesAsWritten()
      requires Valid()
      modifies this
      ensures vertices == old(vertices) && faces == HealRows(old(faces)) && SameIds() && SameMaps()
      ensures cache == if old(cache).facesAreas then WithProperties(old(cache), false).(surfaceIntegrals := false) else old(cache)
      ensures cache.trianglesIds && TrianglesOf(faces) != TrianglesOf(old(faces)) ==> !Valid()
      ensures (cache.facesRadiuses || cache.surfaceIntegrals) && Outlines(vertices, faces) != Outlines(vertices, old(faces)) ==> !Valid()
    {
      if cache.facesAreas {
        RemoveFacesProperties();
      }
      faces := HealRows(faces);
    }

    /**
     * `heal_triangles` writing the rows through the setter: every row keeps its
     * cyclic order, triangles stay as they are, a row ends a triangle exactly when two
     * neighbouring slots held the same index, and the cache is cleared.
     */
    method HealTriangles()
      modifies this
      ensures Valid() && vertices == old(vertices) && cache == Empty
      ensures faces == HealRows(old(faces))
      ensures forall i :: 0 <= i < |faces| ==>
        && IsRotation(old(faces)[i], faces[i])
        && (IsTriangle(old(faces)[i]) ==> faces[i] == old(faces)[i])
        && (IsTriangle(faces[i]) <==> HasRepeatedNeighbours(old(faces)[i]))
    {
      forall i | 0 <= i < |faces| ensures IsRotation(faces[i], HealRow(faces[i])) {
        HealRowSpec(faces[i]);
      }
      SetFaces(HealRows(faces));
    }

    /**
     * `triangulate_quadrangles`: every quadrangle `[a, b, c, d]` becomes `[a, c, d, a]`
     * and `[a, b, c, a]` is appended for it, in ascending id order; triangles stay;
     * every row ends a triangle; the cache is cleared.  Returns the new rows.
     */
    method TriangulateQuadrangles() returns (r: seq<Face>)
      requires Valid()
      modifies this
      ensures Valid() && vertices == old(vertices) && cache == Empty
      ensures r == faces == Triangulated(old(faces), QuadranglesOf(old(faces)))
      ensures |faces| == |old(faces)| + |QuadranglesOf(old(faces))|
      ensures forall i :: 0 <= i < |faces| ==> IsTriangle(faces[i])
      ensures forall i :: 0 <= i < |old(faces)| && IsTriangle(old(faces)[i]) ==> faces[i] == old(faces)[i]
    {
      TriangulatedSpec(faces);
      var q := GetQuadranglesIds();
      faces := Triangulated(faces, q);
      cache := Empty;
      r := faces;
    }

    /**
     * `remove_unused_vertices`: fails with `IndexError` when a row names a missing
     * vertex.  Otherwise, when some vertex is unused, the used ones are kept in order
     * and the rows renumbered; afterwards every vertex is used, every row names the
     * same coordinates as before and keeps its shape, and only the connectivity goes.
     */
    method RemoveUnusedVertices() returns (ok: bool)
      requires Valid()
      modifies this
      ensures Valid()
      ensures ok <==> InBounds(old(faces), |old(vertices)|)
      ensures !ok ==> vertices == old(vertices) && faces == old(faces) && cache == old(cache)
      ensures ok ==>
        && cache == WithConnectivity(old(cache), false) && SameIds()
        && vertices == UsedVertices(old(vertices), old(faces)) && faces == UsedFaces(old(faces), |old(vertices)|)
        && |faces| == |old(faces)| && InBounds(faces, |vertices|)
        && (forall v :: 0 <= v < |vertices| ==> Referenced(faces, v))
        && Corners(vertices, faces) == Corners(old(vertices), old(faces))
        && SameShapes(old(faces), faces)
    {
      ok := InBounds(faces, |vertices|);
      if !ok {
        return;
      }
      RemoveUnusedSpec(vertices, faces);
      var newVertices, newFaces := UsedVertices(vertices, faces), UsedFaces(faces, |vertices|);
      SameCorners(vertices, faces, newVertices, newFaces);
      SameShapesClassifyAlike(faces, newFaces);
      faces, vertices := newFaces, newVertices;
      assert GeometryAgrees(vertices, faces, cache, basis);
      assert ShapesAgree(faces, cache, triangles, quadrangles);
      RemoveConnectivity();
    }

    /**
     * `merge_duplicates` as written, given the merged coordinates `uniq` and the map
     * `newId` that `merge_duplicate_rows` returns: the vertices are replaced, then the
     * rows are renumbered (`IndexError` when a row names a missing vertex), and only
     * the connectivity goes.  The mesh stays valid exactly when the cached ids (if
     * any) still classify the renumbered rows.
     */
    method MergeDuplicatesAsWritten(uniq: seq<Point>, newId: seq<nat>) returns (ok: bool)
      requires Valid()
      requires MergeMap(vertices, uniq, newId)
      modifies this
      ensures vertices == uniq
      ensures ok <==> InBounds(old(faces), |old(vertices)|)
      ensures !ok ==> faces == old(faces) && cache == old(cache) && Valid()
      ensures ok ==> faces == Relabel(old(faces), newId) && cache == WithConnectivity(old(cache), false)
      ensures ok ==>
        (Valid() <==> !cache.trianglesIds || TrianglesOf(faces) == TrianglesOf(old(faces)))
    {
      ok := MergeVertices(uniq, newId);
      if ok {
        RemoveConnectivity();
        TrianglesDetermineShapes(old(faces), faces);
        if TrianglesOf(faces) == TrianglesOf(old(faces)) {
          SameShapesClassifyAlike(old(faces), faces);
        }
      }
    }

    /**
     * `merge_duplicates` dropping the ids along with the connectivity: every row
     * names the same coordinates as before and the mesh stays valid.
     */
    method MergeDuplicates(uniq: seq<Point>, newId: seq<nat>) returns (ok: bool)
      requires Valid()
      requires MergeMap(vertices, uniq, newId)
      modifies this
      ensures Valid() && vertices == uniq
      ensures ok <==> InBounds(old(faces), |old(vertices)|)
      ensures !ok ==> faces == old(faces) && cache == old(cache)
      ensures ok ==> faces == Relabel(old(faces), newId) && cache == WithShapes(WithConnectivity(old(cache), false), false)
      ensures ok ==> InBounds(faces, |vertices|) && Corners(vertices, faces) == Corners(old(vertices), old(faces))
    {
      ok := MergeVertices(uniq, newId);
      if ok {
        RemoveConnectivity();
        RemoveTrianglesQuadrangles();
      }
    }

    /** The shared part of `merge_duplicates`: replace the vertices, renumber the rows. */
    method MergeVertices(uniq: seq<Point>, newId: seq<nat>) returns (ok: bool)
      requires Valid()
      requires MergeMap(vertices, uniq, newId)
      modifies this
      ensures vertices == uniq && cache == old(cache) && basis == old(basis) && SameMaps() && SameIds()
      ensures ok <==> InBounds(old(faces), |old(vertices)|)
      ensures !ok ==> faces == old(faces) && Valid()
      ensures ok ==> faces == Relabel(old(faces), newId) && InBounds(faces, |vertices|)
      ensures ok ==> Corners(vertices, faces) == Corners(old(vertices), old(faces))
      ensures ok ==> GeometryAgrees(vertices, faces, cache, basis) && Grouped(cache)
    {
      if cache.vertexVertices {
        CachedConnectivity(faces, |vertices|, conn, connRows, connEdges);
      }
      ok := InBounds(faces, |newId|);
      ghost var (v0, f0) := (vertices, faces);
      vertices := uniq;
      if !ok {
        return;
      }
      MergedKeepsCoordinates(v0, f0, uniq, newId);
      faces := Relabel(faces, newId);
      SameCorners(v0, f0, vertices, faces);
    }

    /**
     * `heal_normals` up to the end of the flood: the connectivity and the ids are
     * read (computed and cached when missing), then the flood runs over a copy of the
     * rows, starting at face 0, on the cached `f_f` (`ff0`).  Nothing else changes.
     * `KeyError` needs a cached `f_f` that is not symmetric, which a valid mesh and a
     * freshly computed one never have.
     */
    method FloodFill() returns (r: Healing, ff0: seq<set<nat>>, rows: seq<Face>, pruned: seq<set<nat>>,
                               ghost how: seq<Visit>, ghost stamp: seq<nat>)
      requires Floodable()
      modifies this
      ensures vertices == old(vertices) && faces == old(faces) && basis == old(basis)
      ensures Floodable() && (old(Valid()) ==> Valid())
      ensures r.Raised? && r.error.ConnectivityFailed? ==>
        && !old(cache).vertexVertices && cache == old(cache) && SameMaps() && SameIds()
        && (r.error.cause == MissingVertex <==> !InBounds(faces, |vertices|))
      ensures !(r.Raised? && r.error.ConnectivityFailed?) ==>
        && cache == WithShapes(WithConnectivity(old(cache), true), true) && ff0 == conn.ff
        && InBounds(faces, |vertices|) && (old(cache).vertexVertices ==> SameMaps())
      ensures r == Raised(NoFace) ==> faces == []
      ensures faces == [] && !(r.Raised? && r.error.ConnectivityFailed?) ==> r == Raised(NoFace)
      ensures r == Raised(MissingBackPointer) ==>
        && old(cache).vertexVertices && !old(Valid()) && !Symmetric(ff0)
        && Reoriented(faces, rows) && |pruned| == |faces|
      ensures r.Healed? ==>
        && |faces| >= 1 && Reoriented(faces, rows)
        && Flooding(faces, ff0, CellArity(|faces|, TrianglesOf(faces)), rows, pruned,
                    seq(|faces|, f => true), how, stamp, |faces|, [])
    {
      ghost var valid := Valid();
      if valid && cache.vertexVertices {
        CachedConnectivity(faces, |vertices|, conn, connRows, connEdges);
      }
      var maps := Connect();
      if maps.Failure? {
        return Raised(ConnectivityFailed(maps.error)), [], [], [], [], [];
      }
      ff0 := conn.ff;
      if !old(cache).vertexVertices {
        CachedConnectivity(faces, |vertices|, conn, connRows, connEdges);
      }
      if valid || !old(cache).vertexVertices {
        assert Symmetric(ff0);
      }
      TrianglesQuadrangles();
      var n := |faces|;
      if n == 0 {
        return Raised(NoFace), ff0, [], [], [], [];
      }
      var arity := CellArity(n, triangles);
      CellArityOfRows(faces);
      var rows0 := faces;
      var a := new Face[n](i requires 0 <= i < n => rows0[i]);
      assert a[..] == faces;
      var ok;
      ok, pruned, how, stamp := Heal(a, arity, ff0);
      rows := a[..];
      if !ok {
        return Raised(MissingBackPointer), ff0, rows, pruned, how, stamp;
      }
      r := Healed;
    }

    /**
     * `heal_normals` as written, `inward` being the outcome of its outwardness test
     * (`hs[2] < 0`, computed in floating point).  The healed rows are written back,
     * and so is the pruned `f_f`, because the flood works on the cached dictionary
     * itself (also when it raises `KeyError` half-way).  On a closed mesh the rows are
     * flipped when `inward`; the keys that go are those of `HealedKeys`, and the
     * radiuses stay, so the mesh keeps its geometric entries right exactly when none
     * of them is cached or no outline moved.  A second
     * call floods the pruned map; for two faces that are each other's only neighbour
     * that flood cannot succeed (`Flood.PrunedMapRaises`).
     */
    method HealNormalsAsWritten(inward: bool)
        returns (r: Healing, ghost ff0: seq<set<nat>>, rows: seq<Face>, ghost how: seq<Visit>, ghost stamp: seq<nat>)
      requires Floodable()
      modifies this
      ensures vertices == old(vertices) && Reoriented(old(faces), faces)
      ensures r != Raised(MissingBackPointer) ==> Floodable()
      ensures old(Valid()) ==> r != Raised(MissingBackPointer)
      ensures r.Raised? && r.error.ConnectivityFailed? ==>
        && !old(cache).vertexVertices && cache == old(cache) && faces == old(faces)
        && (r.error.cause == MissingVertex <==> !InBounds(faces, |vertices|))
      ensures r == Raised(NoFace) ==> faces == old(faces) == [] && cache == WithShapes(WithConnectivity(old(cache), true), true)
      ensures r == Raised(MissingBackPointer) ==>
        && old(cache).vertexVertices && !Symmetric(old(conn.ff)) && faces == rows
        && cache == WithShapes(old(cache), true) && conn.vv == old(conn.vv)
      ensures old(cache).vertexVertices ==> ff0 == old(conn.ff)
      ensures r.Healed? ==>
        && Flooding(old(faces), ff0, CellArity(|old(faces)|, TrianglesOf(old(faces))), rows, conn.ff,
                    seq(|old(faces)|, f => true), how, stamp, |old(faces)|, [])
        && faces == (if inward && conn.boundaries == [] then FlipAll(rows) else rows)
        && cache == HealedKeys(WithShapes(WithConnectivity(old(cache), true), true), conn.boundaries == [])
        && triangles == TrianglesOf(old(faces)) && quadrangles == QuadranglesOf(old(faces))
        && (old(cache).trianglesIds ==> SameIds())
        && (old(cache).vertexVertices ==> conn == old(conn).(ff := conn.ff))
        && (old(Valid()) ==> (GeometryAgrees(vertices, faces, cache, basis) <==>
              !(cache.facesRadiuses || cache.surfaceIntegrals) || Outlines(vertices, faces) == Outlines(vertices, old(faces))))
    {
      var pruned;
      r, ff0, rows, pruned, how, stamp := FloodFill();
      if r.Raised? && r.error != MissingBackPointer {
        return;
      }
      ghost var before := faces;
      WriteBack(rows, pruned);
      if r.Raised? {
        return;
      }
      PrunedIsFaceMap(before, ff0, CellArity(|before|, TrianglesOf(before)), rows, pruned,
                      seq(|before|, f => true), how, stamp, |before|, []);
      ghost var (c1, b1) := (cache, basis);
      Outward(inward);
      ReorientedTwice(before, rows, faces);
      KeptGeometry(vertices, before, faces, c1, cache, b1, basis);
    }

    /**
     * The healed rows and the pruned `f_f` written back, as the flood of `heal_normals`
     * leaves them; the rest stays.
     */
    method WriteBack(rows: seq<Face>, pruned: seq<set<nat>>)
      requires ShapesAgree(faces, cache, triangles, quadrangles) && InBounds(faces, |vertices|) && Reoriented(faces, rows)
      modifies this
      ensures faces == rows && conn == old(conn).(ff := pruned) && connRows == old(connRows) && connEdges == old(connEdges)
      ensures vertices == old(vertices) && cache == old(cache) && basis == old(basis) && SameIds()
      ensures ShapesAgree(faces, cache, triangles, quadrangles) && InBounds(faces, |vertices|)
    {
      ReorientedSameShapes(faces, rows);
      SameShapesClassifyAlike(faces, rows);
      ReorientedInBounds(faces, rows, |vertices|);
      faces := rows;
      conn := conn.(ff := pruned);
    }

    /**
     * `heal_normals` flooding a copy of `f_f`, and dropping every geometric entry when
     * an outline moved: the cached map stays the symmetric map of the rows, so the
     * mesh stays valid and a later call heals again.  Otherwise as written: never
     * `KeyError`; with connectivity cached and at least one face, the flood succeeds.
     */
    method HealNormals(inward: bool)
        returns (r: Healing, ghost ff0: seq<set<nat>>, rows: seq<Face>, ghost pruned: seq<set<nat>>,
                 ghost how: seq<Visit>, ghost stamp: seq<nat>)
      requires Valid()
      modifies this
      ensures Valid() && vertices == old(vertices) && Reoriented(old(faces), faces)
      ensures r != Raised(MissingBackPointer)
      ensures r.Raised? && r.error.ConnectivityFailed? ==>
        && !old(cache).vertexVertices && cache == old(cache) && faces == old(faces)
        && (r.error.cause == MissingVertex <==> !InBounds(faces, |vertices|))
      ensures r == Raised(NoFace) ==> faces == old(faces) == [] && cache == WithShapes(WithConnectivity(old(cache), true), true)
      ensures old(cache).vertexVertices && |old(faces)| >= 1 ==> r.Healed?
      ensures old(cache).vertexVertices ==> ff0 == old(conn.ff) && conn == old(conn)
      ensures r.Healed? ==>
        && ff0 == conn.ff
        && Flooding(old(faces), ff0, CellArity(|old(faces)|, TrianglesOf(old(faces))), rows, pruned,
                    seq(|old(faces)|, f => true), how, stamp, |old(faces)|, [])
        && faces == (if inward && conn.boundaries == [] then FlipAll(rows) else rows)
        && cache == (var c := HealedKeys(WithShapes(WithConnectivity(old(cache), true), true), conn.boundaries == []);
                     if Outlines(vertices, faces) == Outlines(vertices, old(faces)) then c else WithoutGeometry(c))
    {
      ValidIsFloodable();
      r, ff0, rows, pruned, how, stamp := FloodFill();
      assert r != Raised(MissingBackPointer);
      if r.Raised? {
        assert r.error.ConnectivityFailed? ==> !old(cache).vertexVertices;
        assert r == Raised(NoFace) ==> old(faces) == [];
        return;
      }
      Settle(rows, inward);
    }

    /**
     * The healed rows written back and the end of `heal_normals`, with every geometric
     * entry dropped when an outline moved: the mesh stays valid.
     */
    method Settle(rows: seq<Face>, inward: bool)
      requires Valid() && cache.trianglesIds && InBounds(faces, |vertices|) && Reoriented(faces, rows)
      modifies this
      ensures Valid() && vertices == old(vertices) && SameMaps() && SameIds()
      ensures faces == (if inward && conn.boundaries == [] then FlipAll(rows) else rows) && Reoriented(old(faces), faces)
      ensures cache == (var c := HealedKeys(old(cache), conn.boundaries == []);
                        if Outlines(vertices, faces) == Outlines(vertices, old(faces)) then c else WithoutGeometry(c))
    {
      var before := faces;
      ReorientedAgrees(vertices, faces, rows, cache, triangles, quadrangles, conn, connRows, connEdges);
      ReorientedInBounds(faces, rows, |vertices|);
      faces := rows;
      ghost var (c1, b1) := (cache, basis);
      Outward(inward);
      ReorientedTwice(before, rows, faces);
      KeptGeometry(vertices, before, faces, c1, cache, b1, basis);
      if Outlines(vertices, faces) != Outlines(vertices, before) {
        RemoveGeometry();
      }
    }

    /**
     * The outwardness test of `heal_normals` on a closed mesh: the face properties are
     * read (computed when missing), and when `inward` the rows are flipped as
     * `flip_normals` does, which drops the surface integrals.
     */
    method OutwardTest(inward: bool)
      requires Grouped(cache) && ShapesAgree(faces, cache, triangles, quadrangles) && InBounds(faces, |vertices|)
      modifies this
      ensures vertices == old(vertices) && SameMaps() && SameIds()
      ensures faces == (if inward then FlipAll(old(faces)) else old(faces)) && Reoriented(old(faces), faces)
      ensures cache == WithProperties(old(cache), true).(surfaceIntegrals := old(cache).surfaceIntegrals && !inward)
      ensures basis.radiuses == old(basis).radiuses && basis.integrals == old(basis).integrals
      ensures Grouped(cache) && ShapesAgree(faces, cache, triangles, quadrangles) && InBounds(faces, |vertices|)
      ensures old(ConnectivityAgrees(faces, |vertices|, cache, conn, connRows, connEdges)) ==>
        ConnectivityAgrees(faces, |vertices|, cache, conn, connRows, connEdges)
    {
      if !cache.facesAreas {
        basis := basis.(properties := Outlines(vertices, faces), normals := Corners(vertices, faces));
        cache := WithProperties(cache, true);
      }
      if inward {
        FlipNormalsAsWritten();
      }
    }

    /**
     * The end of `heal_normals` once the healed rows are in place.  On a closed mesh
     * the face properties are read (computed when missing) for the outwardness test
     * and the rows flipped as `flip_normals` does when `inward`; then the keys of
     * `HealedKeys` go.  The radiuses stay, and so do the surface integrals of an open
     * mesh without cached face properties.
     */
    method Outward(inward: bool)
      requires Grouped(cache) && cache.trianglesIds && ShapesAgree(faces, cache, triangles, quadrangles)
      requires InBounds(faces, |vertices|)
      modifies this
      ensures vertices == old(vertices) && SameMaps() && SameIds()
      ensures faces == if inward && conn.boundaries == [] then FlipAll(old(faces)) else old(faces)
      ensures Reoriented(old(faces), faces)
      ensures cache == HealedKeys(old(cache), conn.boundaries == []) && !cache.facesAreas
      ensures basis.radiuses == old(basis).radiuses && basis.integrals == old(basis).integrals
      ensures Grouped(cache) && ShapesAgree(faces, cache, triangles, quadrangles) && InBounds(faces, |vertices|)
      ensures old(ConnectivityAgrees(faces, |vertices|, cache, conn, connRows, connEdges)) ==>
        ConnectivityAgrees(faces, |vertices|, cache, conn, connRows, connEdges)
      ensures old(GeometryAgrees(vertices, faces, cache, basis)) ==>
        (GeometryAgrees(vertices, faces, cache, basis) <==>
         !(cache.facesRadiuses || cache.surfaceIntegrals) || Outlines(vertices, faces) == Outlines(vertices, old(faces)))
    {
      ghost var (c0, b0) := (cache, basis);
      if conn.boundaries == [] {
        OutwardTest(inward);
      }
      // _remove_faces_properties
      if cache.facesAreas {
        cache := WithProperties(cache, false).(surfaceIntegrals := false);
      }
      KeptGeometry(vertices, old(faces), faces, c0, cache, b0, basis);
    }

    // -------------------------------------------------------------------------
    // New meshes from old ones
    // -------------------------------------------------------------------------

    /**
     * `extract_faces`: the selected rows, in the order of `ids`, over the vertices they
     * use, renumbered in ascending old index (`id_v`); every extracted row names the
     * coordinates its original row named.  `IndexError` (no mesh) when an id names no
     * face or a selected row names a missing vertex.
     */
    method ExtractFaces(ids: seq<nat>) returns (r: Option<Mesh>, idv: seq<nat>)
      ensures r.Some? <==> ValidIds(ids, |faces|) && InBounds(Select(faces, ids), |vertices|)
      ensures r.Some? ==>
        var m := r.value;
        var selected := Select(faces, ids);
        && fresh(m) && m.Valid() && m.cache == Empty
        && idv == KeptVertices(selected, |vertices|)
        && m.vertices == Gather(vertices, idv)
        && m.faces == RenumberedFaces(selected, |vertices|)
        && |m.faces| == |ids| && InBounds(m.faces, |m.vertices|)
        && SameCoordinates(m.vertices, m.faces, vertices, selected)
    {
      idv := [];
      if !ValidIds(ids, |faces|) {
        return None, idv;
      }
      var selected := Select(faces, ids);
      if !InBounds(selected, |vertices|) {
        return None, idv;
      }
      var nv := |vertices|;
      idv := KeptVertices(selected, nv);
      RenumberKeepsCoordinates(selected, vertices);
      var m := new Mesh(Gather(vertices, idv), RenumberedFaces(selected, nv));
      r := Some(m);
    }

    /**
     * `__add__`: the vertex arrays concatenated, the second mesh's rows shifted past
     * the first mesh's vertices, then `merge_duplicates` on the new mesh (with the
     * `uniq` and `newId` of the concatenated vertices).  Every row of the sum names
     * the coordinates its row named in its own mesh.  No mesh when a row names a
     * missing vertex of the concatenation.
     */
    method Add(other: Mesh, uniq: seq<Point>, newId: seq<nat>) returns (r: Option<Mesh>)
      requires MergeMap(vertices + other.vertices, uniq, newId)
      ensures r.Some? <==> InBounds(ConcatFaces(faces, |vertices|, other.faces), |vertices| + |other.vertices|)
      ensures r.Some? ==>
        var m := r.value;
        && fresh(m) && m.Valid() && m.cache == Empty && m.vertices == uniq
        && m.faces == Relabel(ConcatFaces(faces, |vertices|, other.faces), newId)
      ensures r.Some? && InBounds(faces, |vertices|) && InBounds(other.faces, |other.vertices|) ==>
        var m := r.value;
        && |m.faces| == |faces| + |other.faces|
        && SameCoordinates(uniq, m.faces, vertices, faces)
        && SameCoordinates(uniq, m.faces[|faces|..], other.vertices, other.faces)
    {
      var sum := ConcatFaces(faces, |vertices|, other.faces);
      var m := new Mesh(vertices + other.vertices, sum);
      var ok := m.MergeDuplicates(uniq, newId);
      if !ok {
        return None;
      }
      if InBounds(faces, |vertices|) && InBounds(other.faces, |other.vertices|) {
        ConcatMerge(vertices, faces, other.vertices, other.faces, uniq, newId);
      }
      r := Some(m);
    }

    /**
     * `symmetrize`, given the mirror images `images` of the vertices and the `uniq`,
     * `newId` of the doubled vertex array: every row gets a reversed copy over the
     * images, duplicates are merged, and the cache is cleared.  Each original row
     * names its old coordinates and each copy names the images in reverse order.
     * When a row names a missing vertex, the merge raises `IndexError` after the
     * arrays were written and before the cache is cleared.
     */
    method Symmetrize(images: seq<Point>, uniq: seq<Point>, newId: seq<nat>) returns (ok: bool)
      requires |images| == |vertices|
      requires MergeMap(vertices + images, uniq, newId)
      modifies this
      ensures vertices == uniq
      ensures ok <==> InBounds(old(faces), |old(vertices)|)
      ensures !ok ==> faces == MirroredFaces(old(faces), |old(vertices)|) && cache == old(cache)
      ensures ok ==>
        && Valid() && cache == Empty
        && faces == Relabel(MirroredFaces(old(faces), |old(vertices)|), newId)
        && |faces| == 2 * |old(faces)|
        && SameCoordinates(uniq, faces, old(vertices), old(faces))
        && SameCoordinates(uniq, faces[|old(faces)|..], images, FlipAll(old(faces)))
    {
      var nv := |vertices|;
      ghost var (v0, f0) := (vertices, faces);
      MirroredInBounds(faces, nv);
      vertices := vertices + images;
      faces := MirroredFaces(faces, nv);
      // merge_duplicates
      vertices := uniq;
      ok := InBounds(faces, |newId|);
      if !ok {
        return;
      }
      MirroredMerge(v0, images, f0, uniq, newId);
      faces := Relabel(faces, newId);
      cache := Empty;
    }

    /**
     * `mirror`, given the mirror images of the vertices: the vertices are replaced,
     * every row reversed (`flip_normals`), and the cache cleared.
     */
    method Mirror(images: seq<Point>)
      modifies this
      ensures Valid() && vertices == images && cache == Empty
      ensures faces == FlipAll(old(faces))
    {
      vertices := images;
      faces := FlipAll(faces);
      cache := Empty;
    }
  }
}
