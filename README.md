# meshmagick `Mesh`: the combinatorial core in Dafny

This project models the combinatorial side of the `Mesh` class of meshmagick
(`meshmagick/mesh.py`). A mesh is a vertex array and a face array. Every face is a
row of four vertex indices, and a triangle repeats its first index in the last
slot. The class keeps an `__internals__` dictionary of quantities derived from the
two arrays, computing each one on first use. Some operations clear that cache, some
remove a few of its keys, and some keep it.

The model covers:

- **Face rows** (`faces.dfy`, module `Faces`):
  - the triangle test, `get_face`, and `np.where` on a mask;
  - the triangle/quadrangle classification;
  - row reversal (`flip_normals`, `np.flipud` in `heal_normals`);
  - the three roll passes of `heal_triangles`;
  - the split of `triangulate_quadrangles`.
- **Renumbering** (`renumber.dfy`, module `Renumber`):
  - the mask-and-renumber of `extract_faces` and `remove_unused_vertices`;
  - the index offset of `__add__`;
  - the mirrored copy of `symmetrize`;
  - the relabelling through the `new_id` map of `merge_duplicates`.
- **`_connectivity`**, split in three:
  - the vertex/vertex and vertex/faces maps, then the face/faces map and the directed boundary edges (`adjacency.dfy`, module `Adjacency`);
  - the boundary-loop walk (`boundary.dfy`, module `Boundary`);
  - the whole computation and what it determines (`connectivity.dfy`, module `Connectivity`).
- **The flood fill of `heal_normals`** (`flood.dfy`, module `Flood`), on an `array` of rows reversed in place. It is proved to:
  - visit every face, restarting at the lowest face not yet reached;
  - change each row at most once, and only by reversal;
  - leave face 0 and every restart as they were;
  - leave each checked face as the orientation test against its parent's final row
    left it; where both rows are proper and the two shared vertices are an edge of
    both, that face runs the edge against its parent (`Flood.FixOpposes`).
- **The cache** (`cache.dfy`, module `MeshCache`):
  - which keys may be present;
  - what each group of entries must agree with;
  - the coordinate maps of `translate*` and `scale*`;
  - the outline each geometric entry of a row is computed from.
- **The geometry a reversal or a scaling disturbs** (`geometry.dfy`, module `Geometry`): the area and radius formulas of `_faces_properties` and `_compute_radiuses` on exact reals, evaluated on two small meshes.
- **The class** (`mesh.dfy`, class `Meshes.Mesh`):
  - the arrays, the present keys, and the cached integer entries as fields;
  - `Valid()`, saying that every cached entry agrees with the arrays;
  - one method per operation.

  Operations that write `self._faces` or `self._vertices` directly keep the cache. Where that leaves an entry stale, the operation is modelled twice: as written, with its post-state spelled out and a lemma exhibiting the stale entry, and corrected, keeping `Valid()` (see Findings).

Floating-point quantities are not computed in the class. Vertex coordinates are
`Point`s of reals. Each cached geometric entry is represented by what its value
reads from the arrays: the normals by the corners `vertices[faces]` in row order
(reversing a row negates its normal), and the areas, centers, radiuses and surface
integrals by each row's `Outline`. A triangle row's outline is its first corner and
the unordered pair of the two others; a quadrangle's is its four corners in order,
because its area and center are computed over the two halves cut by the diagonal
from its first to its third corner. An entry is valid when its outlines (or
corners) are the current ones.

## Model

| member | source | states |
|---|---|---|
| Faces.Cycle | meshmagick/mesh.py:520-523 | the cycle of a row has 3 slots for a triangle and 4 otherwise, each slot equal to the row's |
| Faces.CycleHasRowVertices | meshmagick/mesh.py:520-523 | dropping the repeated slot of a triangle loses no vertex: the cycle holds exactly the row's indices |
| Faces.ReverseInvolution | meshmagick/mesh.py:1217-1218 | reversing a row twice gives the row back |
| Faces.ReverseKeepsShape | meshmagick/mesh.py:1217-1218 | reversal keeps the multiset of a row's entries and keeps triangles triangles |
| Faces.ReverseFlipsEdges | meshmagick/mesh.py:1390-1393 | reversing a proper row keeps it proper and reverses the direction of every edge of its cycle |
| Faces.Arity | meshmagick/mesh.py:685-688 | the number of slots read is the length of the row's cycle |
| Faces.Where | meshmagick/mesh.py:429-430 | `np.where(mask)[0]` is ascending and holds exactly the positions where the mask is set |
| Faces.IncreasingUnique | meshmagick/mesh.py:712 | two ascending index lists with the same members are equal |
| Faces.Negate | meshmagick/mesh.py:428 | `np.invert` negates every position |
| Faces.WhereSplits | meshmagick/mesh.py:427-430 | a mask and its negation select as many positions as the mask has |
| Faces.TriangleMask | meshmagick/mesh.py:427 | position `i` is set exactly when row `i` has `face[0] == face[3]` |
| Faces.Classification | meshmagick/mesh.py:426-432 | triangle ids are exactly the rows with `face[0] == face[3]` and quadrangle ids exactly the others; both are ascending, disjoint and cover `0 .. nb_faces-1`, so their counts add up to `nb_faces` |
| Faces.HealRowSpec | meshmagick/mesh.py:1485-1497 | the three roll passes keep a row's cyclic order and leave triangles alone; the result is a triangle exactly when two cyclically neighbouring slots held the same index |
| Faces.SplitKeepsWinding | meshmagick/mesh.py:1578-1590 | both halves of a split quadrangle are triangles; each edge of the quadrangle is run in its direction by one of them; they run the diagonal in opposite directions |
| Faces.FlipAll | meshmagick/mesh.py:1218 | `np.fliplr` reverses every row and keeps the row count |
| Faces.HealRows | meshmagick/mesh.py:1485-1497 | the passes apply to every row and keep the row count |
| Faces.SameShapesClassifyAlike | meshmagick/mesh.py:426-430 | arrays whose rows agree on being triangles get the same ids |
| Faces.TrianglesDetermineShapes | meshmagick/mesh.py:426-430 | two arrays with as many rows have the same triangle ids exactly when their rows agree on being triangles |
| Faces.FlipAllSpec | meshmagick/mesh.py:1214-1218 | flipping keeps the row count, each row's entries and shape; flipping twice restores the array |
| Faces.Triangulated | meshmagick/mesh.py:1578-1592 | the triangulated array has one row more per listed quadrangle |
| Faces.TriangulatedSpec | meshmagick/mesh.py:1578-1592 | triangle rows are untouched, each quadrangle `[a,b,c,d]` becomes `[a,c,d,a]`, `[a,b,c,a]` is appended in ascending quadrangle order, and every row is a triangle |
| Renumber.Select | meshmagick/mesh.py:553 | `faces[ids]` holds the selected rows in the order and with the repetitions of `ids` |
| Renumber.UsedMask | meshmagick/mesh.py:544-545 | a vertex is marked exactly when some row refers to it |
| Renumber.Renumbering | meshmagick/mesh.py:550-551 | each kept vertex gets its position in `id_v`, and every other vertex keeps its own index |
| Renumber.Relabel | meshmagick/mesh.py:554 | every index of every row is looked up in the map |
| Renumber.Gather | meshmagick/mesh.py:549 | `vertices[id_v]` holds the coordinates of the kept vertices in the order of `id_v` |
| Renumber.KeptVerticesSpec | meshmagick/mesh.py:544-546 | `id_v` is ascending and holds exactly the vertices some row refers to |
| Renumber.RenumberKeepsCoordinates | meshmagick/mesh.py:541-556 | every rewritten index is below `len(id_v)`, points back through `id_v` to the old index, and names the same coordinates as before |
| Renumber.RenumberPointsBack | meshmagick/mesh.py:550-554 | the index part of the previous row |
| Renumber.RenumberUsesAllKept | meshmagick/mesh.py:1451-1459 | after renumbering every kept vertex is used, and every row keeps its shape |
| Renumber.FullIncreasing | meshmagick/mesh.py:1455 | `n` ascending indices below `n` are `0 .. n-1` |
| Renumber.NothingUnused | meshmagick/mesh.py:1455-1461 | when no vertex is unused, every vertex is referenced and renumbering would change nothing, so leaving the arrays as they are is right |
| Renumber.RemoveUnusedSpec | meshmagick/mesh.py:1448-1461 | after `remove_unused_vertices` every vertex is used; the rows keep their count and shapes and name the coordinates they named before |
| Renumber.IncreasingBelow | meshmagick/mesh.py:1453-1455 | an ascending list of indices below `nv` has at most `nv` entries |
| Renumber.Offset | meshmagick/mesh.py:1248 | `faces + nv` adds the offset to every index |
| Renumber.ConcatFacesSpec | meshmagick/mesh.py:1247-1249 | every row of the sum names, in the concatenated vertices, the coordinates its row named in its own mesh, and keeps its shape |
| Renumber.MirroredFaces | meshmagick/mesh.py:1617 | the symmetrized array has twice the rows |
| Renumber.MirroredFacesSpec | meshmagick/mesh.py:1616-1617 | the original rows come first; the copy of row `i` holds the images (`v + nv`) of its indices in reverse order and keeps its shape |
| Renumber.MirroredInBounds | meshmagick/mesh.py:1617 | the mirrored rows stay below `2 nv` exactly when the rows stay below `nv` |
| Renumber.MergedKeepsCoordinates | meshmagick/mesh.py:1293-1299 | rows relabelled through a `merge_duplicate_rows` map name the coordinates they named before |
| Renumber.RelabelSuffix | meshmagick/mesh.py:1299 | relabelling commutes with dropping leading rows |
| Renumber.OffsetMerge | meshmagick/mesh.py:1247-1250 | shifted rows of the second mesh, after the merge, name their coordinates in the second mesh |
| Renumber.PrefixMerge | meshmagick/mesh.py:1247-1250 | rows of the first mesh, after the merge, name their coordinates in the first mesh |
| Renumber.MirroredCopies | meshmagick/mesh.py:1617 | the appended copies are the flipped rows shifted past the vertices |
| Renumber.MirroredMerge | meshmagick/mesh.py:1613-1622 | after merging, each original row names its old coordinates, and each copy names the images of its row's vertices in reverse order |
| Renumber.ConcatMerge | meshmagick/mesh.py:1246-1250 | after merging, each row of the sum names the coordinates its row named in its own mesh |
| Adjacency.Prev | meshmagick/mesh.py:691 | `face_w[index - 1]` wraps around: the slot before slot 0 is the last one |
| Adjacency.AddIncidence | meshmagick/mesh.py:690 | `v_f[iV].add(iface)` adds exactly that face to that vertex |
| Adjacency.AddLink | meshmagick/mesh.py:691-692 | the two `v_v` additions make the two vertices each other's neighbours and change nothing else |
| Adjacency.IncidenceStep | meshmagick/mesh.py:689-690 | one slot more keeps `v_f` equal to the incidences of the handled slots |
| Adjacency.LinkStep | meshmagick/mesh.py:689-692 | one slot more keeps `v_v` equal to the neighbour pairs of the handled slots |
| Adjacency.NextRow | meshmagick/mesh.py:684-692 | finishing a row's cycle is starting the next row |
| Adjacency.AllRows | meshmagick/mesh.py:682-692 | after all rows, the maps are exactly the incidences and neighbour pairs, and `v_v` is symmetric |
| Adjacency.VertexMaps | meshmagick/mesh.py:682-692 | `KeyError` exactly when a row names a vertex outside `range(nv)`; otherwise `v_f[v]` is exactly the faces whose cycle holds `v`, `v_v[v]` exactly its cycle neighbours, and `v_v` is symmetric |
| Adjacency.Matches | meshmagick/mesh.py:712 | the mask is set exactly at the slots holding one of the two vertices |
| Adjacency.Orient | meshmagick/mesh.py:712-717 | a recorded boundary edge joins the two vertices of the pair |
| Adjacency.WhereOfPair | meshmagick/mesh.py:712 | a mask set at exactly two positions selects those two, ascending |
| Adjacency.OrientOpposesWinding | meshmagick/mesh.py:708-719 | for a pair that a proper face runs `a -> b`, the recorded edge is `b -> a`, whichever of the two is `ivertex` |
| Adjacency.PairOkIffNoRaise | meshmagick/mesh.py:702-721 | a pair goes through exactly when it raises neither `RuntimeError` nor an orientation error |
| Adjacency.PairFacts | meshmagick/mesh.py:699-702 | a pair of `v_v` lies in at least one face, and every face in the intersection exists |
| Adjacency.PairSet | meshmagick/mesh.py:703-705 | `list(set1 & set2)` with two distinct members is that pair |
| Adjacency.SingletonSet | meshmagick/mesh.py:707-708 | a one-element intersection is its single member |
| Adjacency.OkStep | meshmagick/mesh.py:698-721 | a pair that goes through keeps "no handled pair raised" |
| Adjacency.AdjacencyStepShared | meshmagick/mesh.py:703-705 | a two-face pair adds the two faces to each other's `f_f` and keeps `f_f` exact |
| Adjacency.AdjacencyStepAlone | meshmagick/mesh.py:707-719 | a one-face pair leaves `f_f` exact |
| Adjacency.EdgesStepShared | meshmagick/mesh.py:703-705 | a two-face pair leaves the boundary edges exact |
| Adjacency.EdgesStepAlone | meshmagick/mesh.py:707-719 | a one-face pair records or overwrites `boundary_edges[i_v_orig]` and keeps the edges exact |
| Adjacency.NextVertex | meshmagick/mesh.py:698-700 | finishing a vertex's neighbours is starting the next vertex |
| Adjacency.AllVertices | meshmagick/mesh.py:697-721 | after all vertices no pair raised, and `f_f` and the edges are exactly what the pairs determine |
| Adjacency.HandlePair | meshmagick/mesh.py:701-721 | one pair: an error exactly when the pair raises it; otherwise `f_f` and the edges stay exact |
| Adjacency.FaceMaps | meshmagick/mesh.py:694-721 | fails exactly when some pair of `v_v` raises; otherwise `f_f` and the boundary edges are what the pairs determine, and `f_f` is symmetric and irreflexive |
| Adjacency.AdjacencySymmetric | meshmagick/mesh.py:703-705 | `f_f` is symmetric, no face is its own neighbour, and neighbours are faces |
| Adjacency.VertexMapsUnique | meshmagick/mesh.py:682-692 | the vertex maps are determined by the rows |
| Adjacency.StepFollows | meshmagick/mesh.py:689-692 | a step of a row's cycle is an edge the row runs in that direction |
| Adjacency.BoundaryEdgeAgainstWinding | meshmagick/mesh.py:707-719 | a boundary edge `o -> t` joins its pair and runs against its face, which runs `t -> o` |
| Adjacency.NoEdgesIffWatertight | meshmagick/mesh.py:703-719 | when no pair raises, there is no boundary edge exactly when every pair lies in two faces |
| Boundary.Origins | meshmagick/mesh.py:729-738 | the origins of a chain are the vertices before its last |
| Boundary.LoopClosed | meshmagick/mesh.py:740-743 | every origin of a closed loop is the target of an edge of the loop |
| Boundary.UnionClosed | meshmagick/mesh.py:743 | loops added one after the other keep that property for all their origins |
| Boundary.UsedPredecessor | meshmagick/mesh.py:734-738 | during a chain, every vertex but the start is reached from a used or chained origin |
| Boundary.NextIsAvailable | meshmagick/mesh.py:736 | when the edges form disjoint cycles, the popped edge leads to an edge still present or back to the start |
| Boundary.AppendOrigins | meshmagick/mesh.py:743 | appending a loop adds exactly its origins |
| Boundary.AppendUsedOnce | meshmagick/mesh.py:743 | appending a loop with fresh, distinct origins keeps every edge used at most once |
| Boundary.FollowStep | meshmagick/mesh.py:736-738 | popping the edge leaving the current end extends the chain and keeps its invariant |
| Boundary.FollowStart | meshmagick/mesh.py:729-732 | the first `popitem` starts a chain in its invariant |
| Boundary.FollowChain | meshmagick/mesh.py:728-744 | a chain runs along input edges, pops each at most once, and closes at its start when the edges form disjoint cycles |
| Boundary.WalkBoundaries | meshmagick/mesh.py:724-746 | the walk terminates; every loop has an edge, follows input edges and ends where it starts; no edge is used twice; no edges give no loops; on disjoint cycles every edge is on a loop |
| Connectivity.Compute | meshmagick/mesh.py:664-754 | `KeyError` exactly when a row names a missing vertex; any other error comes from a pair of `v_v` that raises it; otherwise the maps are those of the rows, `v_v` and `f_f` are symmetric, the loops are edge-disjoint closed walks, and a watertight surface has none (exactly none when the boundary edges form disjoint cycles) |
| Connectivity.LoopAgainstWinding | meshmagick/mesh.py:707-746 | on proper rows, every step `x -> y` of a loop is run `y -> x` by a face holding both |
| Connectivity.ReversedStep | meshmagick/mesh.py:689-692 | a step read on a reversed row is the opposite step of the row |
| Connectivity.ReorientedKeepsMaps | meshmagick/mesh.py:682-705 | reversing rows changes neither the vertex maps nor the face map |
| Flood.RowSet | meshmagick/mesh.py:1361 | `set(face)` holds exactly the row's indices |
| Flood.FirstIndex | meshmagick/mesh.py:1382 | `np.where(face == v)[0][0]` is the first slot holding `v` |
| Flood.Rolled | meshmagick/mesh.py:1382-1383 | `np.roll(face[:n], -k)` reads the first `n` slots from slot `k` on, wrapping |
| Flood.Fix | meshmagick/mesh.py:1390-1393 | the face leaves the test as it was or reversed |
| Flood.RolledNeighbours | meshmagick/mesh.py:1382-1388 | rolled to start at `v1`, a proper row holds the successor of `v1` in slot 1 and its predecessor last |
| Flood.NeedsFlipIffSameDirection | meshmagick/mesh.py:1382-1393 | on proper rows sharing an edge, the row is reversed exactly when both run the edge the same way |
| Flood.FixOpposes | meshmagick/mesh.py:1382-1393 | after the test the reached face runs the shared edge against its parent, and a second test reverses nothing |
| Flood.DrainedMark | meshmagick/mesh.py:1363-1396 | reaching a face keeps every reached, pushing face with unreached neighbours on the stack |
| Flood.Unreached | meshmagick/mesh.py:1352 | the number of faces not reached is at most the number of faces |
| Flood.UnreachedMark | meshmagick/mesh.py:1366 | marking a face reached lowers that number by one |
| Flood.OthersKeepStatus | meshmagick/mesh.py:1363-1396 | reaching one face changes nothing the status of any other face depends on |
| Flood.SkipStep | meshmagick/mesh.py:1366-1379 | a face sharing other than two vertices is marked, loses its parent from `f_f`, and is neither checked nor pushed |
| Flood.CheckStep | meshmagick/mesh.py:1366-1396 | a face sharing two vertices is marked, loses its parent from `f_f`, is fixed against its parent and pushed |
| Flood.RootStep | meshmagick/mesh.py:1351-1355 | a restart at the lowest unreached face keeps the invariant |
| Flood.PopStep | meshmagick/mesh.py:1359-1363 | a popped face is reached, pushes its neighbours, and still lists every unreached neighbour |
| Flood.SymmetricHasBackPointer | meshmagick/mesh.py:1368 | with a symmetric `f_f` the pointer `remove` deletes is there |
| Flood.LowestUnreached | meshmagick/mesh.py:1353 | the restart is the lowest face not reached |
| Flood.UnreachedNone | meshmagick/mesh.py:1346 | with nothing reached every face is unreached |
| Flood.UnreachedAll | meshmagick/mesh.py:1352 | with every face reached none is unreached |
| Flood.Reach | meshmagick/mesh.py:1363-1396 | one neighbour: `KeyError` only on a missing back pointer (never on a symmetric map); otherwise the face is skipped, or fixed and pushed, and the flood invariant holds |
| Flood.RowsReversedAtMostOnce | meshmagick/mesh.py:1393 | every row is its old row or its reversal |
| Flood.Started | meshmagick/mesh.py:1346-1348 | `f_vis[0] = True; stack = [0]` starts the invariant |
| Flood.Drain | meshmagick/mesh.py:1363-1396 | the neighbour loop keeps the invariant and leaves no reached, pushing face with an unreached neighbour off the stack |
| Flood.Round | meshmagick/mesh.py:1350-1396 | one turn of `while 1` keeps the invariant and makes progress |
| Flood.Heal | meshmagick/mesh.py:1342-1396 | the flood terminates, fails only on `KeyError`, never on a symmetric map; rows change at most once, only by reversal; every face is reached; face 0 and restarts, reached after every lower face, keep their rows; every checked face holds what the orientation test against its parent's final row (`Flood.Fix`) made of its row, shares exactly two vertices with the parent, and lost the parent from `f_f` |
| Flood.PrunedIsFaceMap | meshmagick/mesh.py:1368 | the flood only removes neighbours |
| Flood.PrunedMapRaises | meshmagick/mesh.py:1331-1368 | for two faces that are each other's only neighbour, the pruned map is `[{1}, {}]`, and no flood over it can finish |
| MeshCache.Corners | meshmagick/mesh.py:409 | `vertices[faces]` holds the coordinates of every slot |
| MeshCache.SameCorners | meshmagick/mesh.py:409 | meshes whose slots name equal coordinates have equal corners and equal outlines |
| MeshCache.Outlines | meshmagick/mesh.py:286-340 | one outline per row |
| MeshCache.OutlineAt | meshmagick/mesh.py:303-332 | entry `i` is the outline of row `i`: a triangle's first corner and other two corners unordered, a quadrangle's corners in order |
| MeshCache.ReversedTriangleOutline | meshmagick/mesh.py:306-311 | reversing a triangle row keeps its outline, since the triangle formulas are symmetric in the second and third corner |
| MeshCache.ReversedTrianglesKeepOutlines | meshmagick/mesh.py:1214-1218 | reversing some rows, all of them triangles, keeps every outline |
| MeshCache.FlippedTrianglesKeepOutlines | meshmagick/mesh.py:1214-1218 | `flip_normals` on a mesh of triangles keeps every outline |
| MeshCache.Shifted | meshmagick/mesh.py:1040-1135 | a translation keeps the vertex count |
| MeshCache.Scaled | meshmagick/mesh.py:1137-1212 | a scaling keeps the vertex count |
| MeshCache.ShiftedBack | meshmagick/mesh.py:1109-1122 | a translation is undone by the opposite translation |
| MeshCache.ScaledBack | meshmagick/mesh.py:1137-1150 | a scaling by positive factors is undone by the inverse factors |
| MeshCache.ShiftedDifference | meshmagick/mesh.py:1040-1107 | a translation keeps the vector between any two vertices |
| MeshCache.ShiftedIsRigid | meshmagick/mesh.py:1040-1107 | a translation keeps every distance and every orientation between vertices |
| MeshCache.MovedApart | meshmagick/mesh.py:1015-1024 | an image in which two vertices changed their distance is not isometric, so it is no rotation |
| MeshCache.CellArity | meshmagick/mesh.py:1342-1344 | `type_cell` has a value per face |
| MeshCache.CellArityOfRows | meshmagick/mesh.py:1342-1344 | built from the rows' own triangle ids, `type_cell` gives every row its cycle length, 3 or 4 |
| MeshCache.RunConnectivity | meshmagick/mesh.py:664-754 | `KeyError` exactly when a row names a missing vertex; on success the entries agree with the rows |
| MeshCache.ReorientedInBounds | meshmagick/mesh.py:1393 | reversing rows keeps the bound on their indices |
| MeshCache.ReorientedSameShapes | meshmagick/mesh.py:1218 | reversing rows keeps their shapes |
| MeshCache.ReorientedTwice | meshmagick/mesh.py:1393-1425 | rows reversed by the flood and then by `flip_normals` are still reversals of the originals |
| MeshCache.ReorientedAgrees | meshmagick/mesh.py:1214-1226 | reversing rows keeps the ids and the connectivity in agreement |
| MeshCache.ReorientedGeometry | meshmagick/mesh.py:1217-1221 | after reversing rows with the normals negated along, the cached geometric entries agree exactly when none of areas, radiuses, integrals is cached or no outline moved |
| MeshCache.KeptGeometry | meshmagick/mesh.py:1437-1438 | with the face properties gone, kept radiuses and integrals agree with the new rows exactly when none is cached or no outline moved |
| MeshCache.CachedConnectivity | meshmagick/mesh.py:767-832 | cached connectivity gives the current rows' vertex maps and face map, `f_f` symmetric and irreflexive, no loop on a watertight surface |
| MeshCache.HealingReclassifies | meshmagick/mesh.py:1487-1500 | healing `[0, 1, 2, 2]` turns a quadrangle into a triangle |
| MeshCache.MergingReclassifies | meshmagick/mesh.py:1293-1299 | merging vertex 3 into vertex 0 turns `[0, 1, 2, 3]` into a triangle |
| Meshes.Mesh.constructor | meshmagick/mesh.py:50-66 | a new mesh holds the arrays it is given, with an empty cache, and is valid |
| Meshes.Mesh.SetVertices | meshmagick/mesh.py:272-277 | the `vertices` setter replaces the coordinates and clears the cache |
| Meshes.Mesh.SetFaces | meshmagick/mesh.py:279-284 | the `faces` setter replaces the rows and clears the cache |
| Meshes.Mesh.ValidIsFloodable | meshmagick/mesh.py:1331-1344 | a valid mesh meets what the flood needs |
| Meshes.Mesh.HasFacesProperties | meshmagick/mesh.py:342-343 | testing `faces_areas` tests the whole group |
| Meshes.Mesh.HasTrianglesQuadrangles | meshmagick/mesh.py:434-435 | testing `triangles_ids` tests both id keys |
| Meshes.Mesh.HasConnectivity | meshmagick/mesh.py:756-757 | testing `v_v` tests the four connectivity keys |
| Meshes.Mesh.RemoveFacesProperties | meshmagick/mesh.py:345-352 | areas, normals, centers and surface integrals go; radiuses, ids and connectivity stay; validity is kept |
| Meshes.Mesh.RemoveTrianglesQuadrangles | meshmagick/mesh.py:437-441 | both id keys go, nothing else changes |
| Meshes.Mesh.RemoveConnectivity | meshmagick/mesh.py:759-765 | the four connectivity keys go, nothing else changes |
| Meshes.Mesh.RemoveSurfaceIntegrals | meshmagick/mesh.py:1671-1674 | only `surface_integrals` goes |
| Meshes.Mesh.RemoveGeometry | meshmagick/mesh.py:345-352 | every coordinate-dependent entry goes, nothing else changes, and the geometry agrees |
| Meshes.Mesh.TrianglesQuadrangles | meshmagick/mesh.py:426-432 | stores the classification of the rows: ascending, disjoint, covering ids, triangle ids exactly the rows with `face[0] == face[3]` |
| Meshes.Mesh.GetTrianglesIds | meshmagick/mesh.py:443-453 | the ids of exactly the triangle rows, ascending, cached on the way |
| Meshes.Mesh.GetQuadranglesIds | meshmagick/mesh.py:467-477 | the ids of exactly the other rows, ascending, cached on the way |
| Meshes.Mesh.NbTriangles | meshmagick/mesh.py:455-465 | the number of triangle rows; with `nb_quadrangles` it is `nb_faces` |
| Meshes.Mesh.NbQuadrangles | meshmagick/mesh.py:479-489 | the number of other rows; with `nb_triangles` it is `nb_faces` |
| Meshes.Mesh.IsTriangleAt | meshmagick/mesh.py:491-505 | a row is a triangle exactly when its id is a triangle id |
| Meshes.Mesh.GetFace | meshmagick/mesh.py:507-523 | 3 indices for a triangle and 4 otherwise, the row's first slots, holding exactly the row's indices |
| Meshes.Mesh.Connect | meshmagick/mesh.py:775-776 | `_connectivity` runs only when `v_v` is missing; on success its entries are cached and agree with the rows, on failure nothing changes |
| Meshes.Mesh.ConnectivityMaps | meshmagick/mesh.py:767-819 | `vv`/`vf`/`ff`/`boundaries`: fail as `_connectivity` does and change nothing; otherwise the maps of the current rows, `f_f` symmetric and irreflexive, no loop on a watertight surface |
| Meshes.Mesh.NbBoundaries | meshmagick/mesh.py:821-832 | the number of stored loops; zero on a watertight surface |
| Meshes.Mesh.IsMeshClosed | meshmagick/mesh.py:870-880 | closed exactly when no loop is stored; a watertight surface is closed; when the boundary edges form disjoint cycles, closed exactly when watertight |
| Meshes.Mesh.FacesProperties | meshmagick/mesh.py:286-340 | caches the ids, then the properties; `IndexError` exactly when a row names a missing vertex |
| Meshes.Mesh.GetFacesRadiuses | meshmagick/mesh.py:390-424 | indexes the vertices first (`IndexError` exactly on a missing vertex), then computes the properties when missing, then caches the radiuses |
| Meshes.Mesh.GetSurfaceIntegrals | meshmagick/mesh.py:1642-1691 | caches the ids, then the integrals; `IndexError` exactly on a missing vertex |
| Meshes.Mesh.Rotate | meshmagick/mesh.py:981-1038 | drops only the surface integrals; a zero angle vector leaves the vertices, otherwise they become their images, which keep every distance and orientation; the mesh stays valid |
| Meshes.Mesh.TranslateAlong | meshmagick/mesh.py:1040-1107 | moves the vertices rigidly, keeps every entry but the surface integrals, and stays valid |
| Meshes.Mesh.Translate | meshmagick/mesh.py:1109-1135 | moves the vertices through the setter, so the cache ends empty |
| Meshes.Mesh.ScaleAsWritten | meshmagick/mesh.py:1137-1212 | scales the vertices; rows, ids and connectivity stay; areas, normals, centers and surface integrals go only when the properties are cached; radiuses stay; valid exactly when no kept radius or integral entry saw an outline move |
| Meshes.Mesh.Scale | meshmagick/mesh.py:1137-1212 | scales the vertices, drops every coordinate-dependent entry, and stays valid |
| Meshes.Mesh.FlipNormalsAsWritten | meshmagick/mesh.py:1214-1226 | every row reversed, same shapes; ids and connectivity stay; only the surface integrals go; normals negated; valid exactly when no area or radius is cached or no outline moved, so always on triangles |
| Meshes.Mesh.ReverseRows | meshmagick/mesh.py:1217-1221 | the rows reversed and the normals negated; ids and connectivity still agree |
| Meshes.Mesh.FlipNormals | meshmagick/mesh.py:1214-1226 | every row reversed, same shapes; ids and connectivity stay; only the surface integrals go when no outline moved, every geometric entry otherwise; the mesh stays valid |
| Meshes.Mesh.HealTrianglesAsWritten | meshmagick/mesh.py:1477-1510 | rows healed in place; the face properties go only when cached; ids, connectivity and radiuses stay; invalid when cached triangle ids changed, or a kept radius or integral saw its outline move |
| Meshes.Mesh.HealTriangles | meshmagick/mesh.py:1477-1510 | rows keep their cyclic order, triangles stay, a row ends a triangle exactly when it had repeated neighbours; the cache is cleared and the mesh is valid |
| Meshes.Mesh.TriangulateQuadrangles | meshmagick/mesh.py:1567-1603 | returns the triangulated rows: one more row per quadrangle, triangles untouched, every row a triangle, cache cleared |
| Meshes.Mesh.RemoveUnusedVertices | meshmagick/mesh.py:1442-1475 | `IndexError` exactly on a missing vertex, changing nothing; otherwise the used vertices in order and the renumbered rows, so every vertex is used and rows keep their count, shapes and coordinates; ids stay, only the connectivity goes; valid |
| Meshes.Mesh.MergeDuplicatesAsWritten | meshmagick/mesh.py:1273-1319 | vertices replaced, rows renumbered (`IndexError` on a missing vertex), only the connectivity goes; valid exactly when cached ids still classify the rows |
| Meshes.Mesh.MergeDuplicates | meshmagick/mesh.py:1273-1319 | as written, but the ids go too: every row names its old coordinates and the mesh stays valid |
| Meshes.Mesh.MergeVertices | meshmagick/mesh.py:1293-1299 | the vertices are replaced and the rows renumbered to the same corners |
| Meshes.Mesh.FloodFill | meshmagick/mesh.py:1326-1396 | connectivity and ids read and cached; the flood over a copy of the rows fails only on a non-symmetric cached `f_f` (never on a valid mesh) and otherwise reaches every face as `Flood.Heal` states |
| Meshes.Mesh.HealNormalsAsWritten | meshmagick/mesh.py:1321-1440 | healed rows and the pruned `f_f` written back, the rest of the connectivity and the ids kept; closed and `inward` flips every row; face properties and integrals go on a closed mesh, only when cached on an open one; radiuses stay, so the geometry agrees exactly when none is kept or no outline moved; `KeyError` only when the cached `f_f` was not symmetric |
| Meshes.Mesh.WriteBack | meshmagick/mesh.py:1333-1405 | the healed rows and the pruned `f_f` replace the cached ones; nothing else changes |
| Meshes.Mesh.HealNormals | meshmagick/mesh.py:1321-1440 | as written, but the cached `f_f` is kept intact and every geometric entry goes when an outline moved: never `KeyError`, always succeeds on a non-empty mesh with connectivity cached, and the mesh stays valid |
| Meshes.Mesh.Settle | meshmagick/mesh.py:1405-1440 | the healed rows in place, then the end of `heal_normals`, dropping the geometry when an outline moved; the mesh stays valid |
| Meshes.Mesh.OutwardTest | meshmagick/mesh.py:1408-1425 | the face properties read (computed when missing); `inward` flips every row and drops the integrals; radiuses kept |
| Meshes.Mesh.Outward | meshmagick/mesh.py:1405-1440 | a closed, `inward` mesh has every row flipped; face properties and integrals go on a closed mesh, and on an open one only when the properties were cached; kept radiuses and integrals agree exactly when none is kept or no outline moved |
| Meshes.Mesh.ExtractFaces | meshmagick/mesh.py:525-564 | no mesh exactly when an id names no face or a selected row a missing vertex; otherwise a fresh valid mesh with the vertices `id_v` in ascending order and renumbered rows naming the same coordinates |
| Meshes.Mesh.Add | meshmagick/mesh.py:1228-1253 | concatenation, offset and merge; every row of the sum names the coordinates its row named in its own mesh |
| Meshes.Mesh.Symmetrize | meshmagick/mesh.py:1605-1627 | each row gets a reversed copy over the images, duplicates are merged, the cache is cleared; `IndexError` between the merge and the clear |
| Meshes.Mesh.Mirror | meshmagick/mesh.py:1629-1640 | vertices replaced by their images, every row reversed, cache cleared |
| Geometry.RadiusOfLargest | meshmagick/mesh.py:402-423 | a triangle's radius squared is the largest squared distance from its center to a corner |
| Geometry.ReversalMovesOutline | meshmagick/mesh.py:1217-1218 | reversing the non-planar quadrangle `(0,0,0) (1,0,0) (1,1,1) (0,1,0)` changes its outline |
| Geometry.ReversalMovesQuadArea | meshmagick/mesh.py:322-326 | that quadrangle's area is `sqrt(2)` before the reversal and `(1 + sqrt(3)) / 2` after |
| Geometry.DoubledDistance | meshmagick/mesh.py:1137-1155 | doubling the right triangle moves its first two vertices from 1 apart to 2 apart |
| Geometry.DoublingIsNotIsometric | meshmagick/mesh.py:1015-1024 | doubling the right triangle's coordinates is not isometric, so no rotation produces it and `Rotate` does not accept it |
| Geometry.ScalingDoublesRadius | meshmagick/mesh.py:402-423 | doubling the coordinates of the triangle `(0,0,0) (1,0,0) (0,1,0)` moves its outline and doubles its radius |

## Left out

- Floating-point geometry is not computed. This covers areas, normals, centers, radiuses, surface integrals, volumes, inertias, bounding boxes and edge statistics. Each cached geometric entry is represented by the outline (or, for normals, the corners) it was computed from; only module `Geometry` evaluates the area and radius formulas, on exact reals. The rotation, the mirror images and the outward test of `heal_normals` (`hs[2] < 0`) come in as parameters (`rotated`, `images`, `inward`).
- `merge_duplicate_rows` (in `meshmagick.tools`) is not part of this model. Its result comes in as the parameters `uniq` and `newId`, which must send every vertex to an equal coordinate (`MergeMap`). The tolerance `atol` is not modelled.
- The constructor's shape asserts are enforced by the types: `Face` has four slots and `Point` three coordinates. Names, the global id counter and `_verbose` with its printing (including "Boundary is not closed !!!" and the warning for faces sharing other than two vertices) are not modelled.
- Numpy's negative indices are not modelled: indices are natural numbers. Numpy's dtype conversions and copies are not modelled either. Arrays are values, so the aliasing of `faces = self._faces` is captured only through the fields the methods reassign.
- `__internals__` is modelled by the keys it holds (`Cache`), plus the integer entries held in fields. The Python dictionaries keyed by `range(nv)` and `range(nf)` are sequences of sets.
- `is_mesh_conformal`, `remove_degenerated_faces`, `_edges_stats`, VTK, matplotlib and file I/O are not modelled. They are floating-point, experimental or external.
- Connectivity.Compute: when more than one pair of `v_v` raises, the error is stated as coming from some raising pair, not the first one in Python's set iteration order, because that order is left unspecified. Adjacency.FaceMaps likewise. Adjacency.FaceMaps also leaves open which target `boundary_edges[o]` keeps when several one-face pairs record an edge from the same origin `o`: the source keeps the last one its loops write, and the model states only that the kept target was recorded by one of them.
- Boundary.WalkBoundaries: `popitem` is modelled as any choice of remaining edge, not Python's last-inserted order.
- Meshes.Mesh.HealNormalsAsWritten: it requires cached ids, if any, to classify the current rows. A `type_cell` built from ids left stale by `heal_triangles` as written is not modelled.
- Meshes.Mesh.FloodFill: it recomputes the ids rather than reading them, which gives the same ids under that requirement.
- Meshes.Mesh.Rotate: the rotation matrix (mesh.py:1015-1024) is not computed. `rotated` is any image of the vertices that keeps every distance and every orientation (`Rigid`), which every rotation does. The kept normals and centers are taken to have been rotated along, and the areas and radiuses to be unchanged. This is stated as their agreement with the new outlines, not as a computation.
- Meshes.Mesh.TranslateAlong: the kept centers are taken to have been moved along, and the other entries to be unchanged by the translation (a rigid motion, `MeshCache.ShiftedIsRigid`), again stated as agreement with the new outlines.

## Findings

| source | as written | input that shows it | evidently intended | confidence | as-written member | corrected member |
|---|---|---|---|---|---|---|
| meshmagick/mesh.py:1333-1368, 1405 | `heal_normals` removes back pointers from the cached `f_f` dictionary itself and keeps the connectivity cache, so the cached `ff` is left pruned | two triangles sharing an edge, e.g. rows `[0,1,2,0]` and `[2,1,3,2]`: the first call leaves `f_f == {0: {1}, 1: {}}`, and a second `heal_normals` raises `KeyError` at `f_f[1].remove(0)` | flood a copy of `f_f`, so the cache keeps the symmetric map and a later call heals again | not executed | Meshes.Mesh.HealNormalsAsWritten, Flood.PrunedMapRaises | Meshes.Mesh.HealNormals |
| meshmagick/mesh.py:1482-1500 | `heal_triangles` keeps `triangles_ids`, `quadrangles_ids` and the connectivity while rolling rows into triangles | row `[0,1,2,2]` with ids cached: `triangles_ids` stays empty although the row becomes the triangle `[2,0,1,2]` | drop the derived entries of the rows (write through the `faces` setter) | not executed | Meshes.Mesh.HealTrianglesAsWritten, MeshCache.HealingReclassifies | Meshes.Mesh.HealTriangles |
| meshmagick/mesh.py:1152-1153, 345-352 | `scale*` drops the face properties only when they are cached, and never drops `faces_radiuses`, so radiuses (and surface integrals computed without face properties) survive the scaling | vertices `(0,0,0) (1,0,0) (0,1,0)`, row `[0,1,2,0]`, radiuses cached, `scale(2)`: the cached radius stays `sqrt(5)/3` while the scaled triangle's is `2 sqrt(5)/3` | drop every coordinate-dependent entry | not executed | Meshes.Mesh.ScaleAsWritten, Geometry.ScalingDoublesRadius | Meshes.Mesh.Scale |
| meshmagick/mesh.py:1298-1314 | `merge_duplicates` keeps `triangles_ids` although merging can make a quadrangle's first and last index equal | row `[0,1,2,3]` with vertex 3 a duplicate of vertex 0 (`new_id = [0,1,2,0]`): the row becomes the triangle `[0,1,2,0]` while `triangles_ids` stays empty | drop the ids along with the connectivity | not executed | Meshes.Mesh.MergeDuplicatesAsWritten, MeshCache.MergingReclassifies | Meshes.Mesh.MergeDuplicates |
| meshmagick/mesh.py:1214-1226, 322-332, 1437-1438 | `flip_normals` negates the cached normals but keeps areas, centers and radiuses, and `heal_normals` keeps radiuses (and, on an open mesh without face properties, the surface integrals) across its reversals; reversing a non-planar quadrangle moves the diagonal its area and center are computed over | vertices `(0,0,0) (1,0,0) (1,1,1) (0,1,0)`, row `[0,1,2,3]`, properties cached, `flip_normals()`: the cached area stays `sqrt(2)` while the reversed row's is `(1 + sqrt(3))/2` | keep the entries only when no outline moved, otherwise drop every coordinate-dependent entry | not executed | Meshes.Mesh.FlipNormalsAsWritten, Meshes.Mesh.HealNormalsAsWritten, Geometry.ReversalMovesOutline, Geometry.ReversalMovesQuadArea | Meshes.Mesh.FlipNormals, Meshes.Mesh.HealNormals |
