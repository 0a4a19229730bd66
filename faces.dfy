/**
 * Face rows of a meshmagick surface mesh.
 *
 * Every face is stored as a row of four vertex indices.  A triangle repeats its
 * first index in the last slot, so a row is a triangle exactly when slot 0 and
 * slot 3 agree.  This module holds the row-level operations of the `Mesh` class:
 * classification, `get_face`, row reversal (`flip_normals`, `heal_normals`),
 * the rotation used by `heal_triangles` and the split used by
 * `triangulate_quadrangles`, together with `np.where` on a boolean mask.
 */
module Faces {

  /** A face row: four vertex indices. */
  type Face = r: seq<nat> | |r| == 4 witness [0, 0, 0, 0]

  /** A row encodes a triangle iff its first and last slots agree. */
  predicate IsTriangle(f: Face) {
    f[0] == f[3]
  }

  /** The vertex cycle of a face: three indices for a triangle, four otherwise (`get_face`). */
  function Cycle(f: Face): (c: seq<nat>)
    ensures |c| == (if IsTriangle(f) then 3 else 4)
    ensures forall k :: 0 <= k < |c| ==> c[k] == f[k]
  {
    if IsTriangle(f) then f[..3] else f
  }

  /** Dropping the repeated slot of a triangle loses no vertex: the cycle holds exactly the row's indices. */
  lemma CycleHasRowVertices(f: Face)
    ensures forall x :: x in Cycle(f) <==> x in f
  {
    if IsTriangle(f) {
      assert f == Cycle(f) + [f[0]];
    }
  }

  /** Row reversal, as `np.fliplr` applies it to every row and `np.flipud` to one row. */
  function Reverse(f: Face): Face {
    [f[3], f[2], f[1], f[0]]
  }

  /** Reversal is an involution. */
  lemma ReverseInvolution(f: Face)
    ensures Reverse(Reverse(f)) == f
  {
    assert Reverse(Reverse(f))[0] == f[0];
  }

  /** Reversal keeps the entries of a row and keeps triangles triangles (and quadrangles quadrangles). */
  lemma ReverseKeepsShape(f: Face)
    ensures multiset(Reverse(f)) == multiset(f)
    ensures IsTriangle(Reverse(f)) <==> IsTriangle(f)
  {
    var r := Reverse(f);
    assert f == [f[0]] + [f[1]] + [f[2]] + [f[3]];
    assert r == [f[3]] + [f[2]] + [f[1]] + [f[0]];
    assert multiset(f) == multiset{f[0]} + multiset{f[1]} + multiset{f[2]} + multiset{f[3]};
    assert multiset(r) == multiset{f[3]} + multiset{f[2]} + multiset{f[1]} + multiset{f[0]};
  }

  /**
   * `x` is immediately followed by `y` when the first `n` slots of `r` are read as a
   * cycle (slot n-1 wraps around to slot 0).  `n` is 3 for a triangle and 4 for a
   * quadrangle; the flood fill of `heal_normals` reads `n` from its cell-type array.
   */
  predicate Follows(r: Face, n: nat, x: nat, y: nat)
    requires n == 3 || n == 4
  {
    || (r[0] == x && r[1] == y)
    || (r[1] == x && r[2] == y)
    || (if n == 3 then r[2] == x && r[0] == y
        else (r[2] == x && r[3] == y) || (r[3] == x && r[0] == y))
  }

  /** The cycle length that matches a row's own encoding. */
  function Arity(f: Face): (n: nat)
    ensures n == |Cycle(f)|
  {
    if IsTriangle(f) then 3 else 4
  }

  /**
   * A row read with `n` slots is a proper polygon: its first `n` entries are pairwise
   * distinct and, when read as a triangle, the row repeats its first entry last.
   */
  predicate Proper(r: Face, n: nat) {
    && (n == 3 || n == 4)
    && (n == 3 ==> r[3] == r[0])
    && r[0] != r[1] && r[1] != r[2] && r[0] != r[2]
    && (n == 4 ==> r[3] != r[0] && r[3] != r[1] && r[3] != r[2])
  }

  /** Reversing a proper row reverses the direction of every edge of its cycle. */
  lemma ReverseFlipsEdges(r: Face, n: nat, x: nat, y: nat)
    requires Proper(r, n)
    ensures Proper(Reverse(r), n)
    ensures Follows(Reverse(r), n, x, y) <==> Follows(r, n, y, x)
  {
  }

  // ---------------------------------------------------------------------------
  // np.where on a boolean mask and the triangle / quadrangle classification
  // ---------------------------------------------------------------------------

  /** Strictly ascending sequence of indices. */
  predicate Increasing(s: seq<nat>) {
    forall a, b :: 0 <= a < b < |s| ==> s[a] < s[b]
  }

  /** The indices where `mask` holds, in ascending order (`np.where(mask)[0]`). */
  function Where(mask: seq<bool>): (r: seq<nat>)
    ensures Increasing(r)
    ensures forall k :: 0 <= k < |r| ==> r[k] < |mask| && mask[r[k]]
    ensures forall i :: 0 <= i < |mask| && mask[i] ==> i in r
  {
    if |mask| == 0 then []
    else Where(mask[..|mask| - 1]) + (if mask[|mask| - 1] then [|mask| - 1] else [])
  }

  /** Two ascending lists with the same members are equal. */
  lemma {:induction false} IncreasingUnique(a: seq<nat>, b: seq<nat>)
    requires Increasing(a) && Increasing(b)
    requires forall x :: x in a <==> x in b
    ensures a == b
    decreases |a| + |b|
  {
    if a != [] && b != [] {
      assert a[0] in b;
      assert b[0] in a;
      var i :| 0 <= i < |b| && b[i] == a[0];
      var j :| 0 <= j < |a| && a[j] == b[0];
      assert forall k :: 0 <= k < |a| ==> a[0] <= a[k];
      assert forall k :: 0 <= k < |b| ==> b[0] <= b[k];
      assert a[0] <= a[j] == b[0] <= b[i] == a[0];
      TailIncluded(a, b);
      TailIncluded(b, a);
      IncreasingUnique(a[1..], b[1..]);
      assert a == [a[0]] + a[1..] && b == [b[0]] + b[1..];
    } else {
      NoMembers(a);
      NoMembers(b);
    }
  }

  /** Past a common smallest entry, the members of an ascending list stay members of the other list's tail. */
  lemma TailIncluded(a: seq<nat>, b: seq<nat>)
    requires a != [] && b != [] && a[0] == b[0] && Increasing(a)
    requires forall x :: x in a ==> x in b
    ensures forall x :: x in a[1..] ==> x in b[1..]
  {
    forall x | x in a[1..] ensures x in b[1..] {
      var k :| 0 <= k < |a| - 1 && a[1..][k] == x;
      assert a[0] < a[k + 1] && x in b;
      var m :| 0 <= m < |b| && b[m] == x;
      assert m > 0 && b[1..][m - 1] == x;
    }
  }

  /** A list is empty exactly when nothing is in it. */
  lemma NoMembers(s: seq<nat>)
    ensures s == [] <==> forall x :: x !in s
  {
    if s != [] {
      assert s[0] in s;
    }
  }

  /** Element-wise negation (`np.invert`). */
  function Negate(mask: seq<bool>): (r: seq<bool>)
    ensures |r| == |mask| && forall i :: 0 <= i < |r| ==> r[i] == !mask[i]
  {
    seq(|mask|, i requires 0 <= i < |mask| => !mask[i])
  }

  /** A mask and its negation select disjoint index lists that together count every position. */
  lemma {:induction false} WhereSplits(mask: seq<bool>)
    ensures |Where(mask)| + |Where(Negate(mask))| == |mask|
  {
    if |mask| > 0 {
      var n := |mask| - 1;
      var m := Negate(mask);
      assert m[..n] == Negate(mask[..n]);
      assert Where(mask) == Where(mask[..n]) + (if mask[n] then [n] else []);
      assert Where(m) == Where(m[..n]) + (if m[n] then [n] else []);
      WhereSplits(mask[..n]);
    }
  }

  /** `faces[:, 0] == faces[:, -1]`. */
  function TriangleMask(faces: seq<Face>): (m: seq<bool>)
    ensures |m| == |faces| && forall i :: 0 <= i < |m| ==> m[i] == IsTriangle(faces[i])
  {
    seq(|faces|, i requires 0 <= i < |faces| => IsTriangle(faces[i]))
  }

  /** Ids of the triangle rows (`triangles_ids`). */
  function TrianglesOf(faces: seq<Face>): seq<nat> {
    Where(TriangleMask(faces))
  }

  /** Ids of the quadrangle rows (`quadrangles_ids`). */
  function QuadranglesOf(faces: seq<Face>): seq<nat> {
    Where(Negate(TriangleMask(faces)))
  }

  /**
   * Two ascending id lists that split `0 .. n-1` between them: every id below `n`
   * is in exactly one list, and nothing else is in either.
   */
  predicate Partition(t: seq<nat>, q: seq<nat>, n: nat) {
    && Increasing(t) && Increasing(q)
    && (forall k :: 0 <= k < |t| ==> t[k] < n)
    && (forall k :: 0 <= k < |q| ==> q[k] < n)
    && (forall i :: 0 <= i < n ==> (i in t <==> i !in q))
    && |t| + |q| == n
  }

  /**
   * `_triangles_quadrangles`: the triangle ids are exactly the rows with
   * `face[0] == face[3]`, the quadrangle ids exactly the others; both ascending,
   * disjoint, covering, so `nb_triangles + nb_quadrangles == nb_faces`.
   */
  lemma Classification(faces: seq<Face>)
    ensures Partition(TrianglesOf(faces), QuadranglesOf(faces), |faces|)
    ensures forall i :: 0 <= i < |faces| ==> (i in TrianglesOf(faces) <==> IsTriangle(faces[i]))
    ensures forall i :: 0 <= i < |faces| ==> (i in QuadranglesOf(faces) <==> !IsTriangle(faces[i]))
  {
    var m := TriangleMask(faces);
    WhereSplits(m);
    var t, q := TrianglesOf(faces), QuadranglesOf(faces);
    forall i | 0 <= i < |faces|
      ensures i in t <==> IsTriangle(faces[i])
      ensures i in q <==> !IsTriangle(faces[i])
    {
      if i in t {
        var k :| 0 <= k < |t| && t[k] == i;
      }
      if i in q {
        var k :| 0 <= k < |q| && q[k] == i;
      }
    }
  }

  // ---------------------------------------------------------------------------
  // heal_triangles: rotate quadrangle rows until a repeated index lands in slot 3
  // ---------------------------------------------------------------------------

  /** `np.roll(row, 1)`: every entry moves one slot to the right, the last wraps to the front. */
  function RollRight(f: Face): Face {
    [f[3], f[0], f[1], f[2]]
  }

  /** One pass of `heal_triangles`: rows that are not triangles are rolled, triangles kept. */
  function RollIfQuadrangle(f: Face): Face {
    if IsTriangle(f) then f else RollRight(f)
  }

  /** The three passes of `heal_triangles` applied to one row. */
  function HealRow(f: Face): Face {
    RollIfQuadrangle(RollIfQuadrangle(RollIfQuadrangle(f)))
  }

  /** Two cyclically neighbouring slots of the row hold the same index. */
  predicate HasRepeatedNeighbours(f: Face) {
    f[0] == f[1] || f[1] == f[2] || f[2] == f[3] || f[3] == f[0]
  }

  /** `g` reads the same cycle of four slots as `f`, started at another slot. */
  predicate IsRotation(f: Face, g: Face) {
    exists k :: 0 <= k < 4 && g == Rotated(f, k)
  }

  /** The row read from slot `k` onwards, wrapping around. */
  function Rotated(f: Face, k: nat): Face {
    seq(4, j requires 0 <= j < 4 => f[(j + k) % 4])
  }

  /**
   * `heal_triangles` on one row: the row keeps its cyclic order, triangles are left
   * alone, and the result is a triangle exactly when the row had two equal
   * neighbouring indices.
   */
  lemma HealRowSpec(f: Face)
    ensures IsRotation(f, HealRow(f))
    ensures IsTriangle(f) ==> HealRow(f) == f
    ensures IsTriangle(HealRow(f)) <==> HasRepeatedNeighbours(f)
  {
    var g := HealRow(f);
    if IsTriangle(f) {
      assert g == Rotated(f, 0);
    } else if f[2] == f[3] {
      assert g == Rotated(f, 3);
    } else if f[1] == f[2] {
      assert g == Rotated(f, 2);
    } else {
      assert g == Rotated(f, 1);
    }
  }

  // ---------------------------------------------------------------------------
  // triangulate_quadrangles: split (a, b, c, d) into (a, c, d) and (a, b, c)
  // ---------------------------------------------------------------------------

  /** The row a quadrangle is overwritten with: triangle `(0, 2, 3)`. */
  function SplitKept(f: Face): Face {
    [f[0], f[2], f[3], f[0]]
  }

  /** The row appended for a quadrangle: triangle `(0, 1, 2)`. */
  function SplitAdded(f: Face): Face {
    [f[0], f[1], f[2], f[0]]
  }

  /**
   * The two triangles of a split are triangles; each edge of the quadrangle's cycle
   * is traversed, in the quadrangle's direction, by one of them; and they traverse
   * the diagonal `(a, c)` in opposite directions, so the split keeps the winding.
   */
  lemma SplitKeepsWinding(f: Face, x: nat, y: nat)
    requires Proper(f, 4)
    ensures IsTriangle(SplitKept(f)) && IsTriangle(SplitAdded(f))
    ensures Follows(f, 4, x, y) ==> Follows(SplitKept(f), 3, x, y) || Follows(SplitAdded(f), 3, x, y)
    ensures Follows(SplitAdded(f), 3, f[2], f[0]) && Follows(SplitKept(f), 3, f[0], f[2])
  {
  }

  // ---------------------------------------------------------------------------
  // Whole-array forms of the row operations
  // ---------------------------------------------------------------------------

  /** `np.fliplr(faces)`: every row reversed (`flip_normals`). */
  function FlipAll(faces: seq<Face>): (r: seq<Face>)
    ensures |r| == |faces| && forall i :: 0 <= i < |faces| ==> r[i] == Reverse(faces[i])
  {
    seq(|faces|, i requires 0 <= i < |faces| => Reverse(faces[i]))
  }

  /** The three roll passes of `heal_triangles` over the whole array. */
  function HealRows(faces: seq<Face>): (r: seq<Face>)
    ensures |r| == |faces| && forall i :: 0 <= i < |faces| ==> r[i] == HealRow(faces[i])
  {
    seq(|faces|, i requires 0 <= i < |faces| => HealRow(faces[i]))
  }

  /** Two arrays with the same number of rows whose rows agree on being triangles. */
  predicate SameShapes(faces: seq<Face>, faces': seq<Face>) {
    |faces| == |faces'| && forall i :: 0 <= i < |faces| ==> (IsTriangle(faces[i]) <==> IsTriangle(faces'[i]))
  }

  /** Arrays of the same shapes classify alike. */
  lemma SameShapesClassifyAlike(faces: seq<Face>, faces': seq<Face>)
    requires SameShapes(faces, faces')
    ensures TrianglesOf(faces) == TrianglesOf(faces') && QuadranglesOf(faces) == QuadranglesOf(faces')
  {
    assert TriangleMask(faces) == TriangleMask(faces');
  }

  /** Two arrays with as many rows have the same shapes exactly when their triangle ids agree. */
  lemma TrianglesDetermineShapes(faces: seq<Face>, faces': seq<Face>)
    requires |faces| == |faces'|
    ensures SameShapes(faces, faces') <==> TrianglesOf(faces) == TrianglesOf(faces')
  {
    if SameShapes(faces, faces') {
      SameShapesClassifyAlike(faces, faces');
    }
    Classification(faces);
    Classification(faces');
  }

  /** Flipping every row keeps the row count, each row's entries and each row's shape; flipping twice restores the array. */
  lemma FlipAllSpec(faces: seq<Face>)
    ensures SameShapes(faces, FlipAll(faces))
    ensures forall i :: 0 <= i < |faces| ==> multiset(FlipAll(faces)[i]) == multiset(faces[i])
    ensures FlipAll(FlipAll(faces)) == faces
  {
    forall i | 0 <= i < |faces|
      ensures IsTriangle(faces[i]) <==> IsTriangle(FlipAll(faces)[i])
      ensures multiset(FlipAll(faces)[i]) == multiset(faces[i])
      ensures FlipAll(FlipAll(faces))[i] == faces[i]
    {
      ReverseKeepsShape(faces[i]);
      ReverseInvolution(faces[i]);
    }
  }

  /**
   * `triangulate_quadrangles` with the quadrangle ids `q`: each listed row `[a, b, c, d]`
   * is overwritten with `[a, c, d, a]`, and `[a, b, c, a]` is appended for it in the
   * order of `q`.
   */
  function Triangulated(faces: seq<Face>, q: seq<nat>): (r: seq<Face>)
    requires forall k :: 0 <= k < |q| ==> q[k] < |faces|
    ensures |r| == |faces| + |q|
  {
    seq(|faces|, i requires 0 <= i < |faces| => if i in q then SplitKept(faces[i]) else faces[i])
      + seq(|q|, k requires 0 <= k < |q| => SplitAdded(faces[q[k]]))
  }

  /**
   * With the quadrangle ids of the array itself, the triangulation leaves every
   * triangle row as it was, overwrites every quadrangle row with the triangle of its
   * slots 0, 2, 3, appends the triangle of slots 0, 1, 2 of each quadrangle in
   * ascending order, and leaves nothing but triangles.
   */
  lemma TriangulatedSpec(faces: seq<Face>)
    ensures var q := QuadranglesOf(faces);
      var r := Triangulated(faces, q);
      && |r| == |faces| + |q|
      && (forall i :: 0 <= i < |r| ==> IsTriangle(r[i]))
      && (forall i :: 0 <= i < |faces| && IsTriangle(faces[i]) ==> r[i] == faces[i])
      && (forall i :: 0 <= i < |faces| && !IsTriangle(faces[i]) ==> r[i] == SplitKept(faces[i]))
      && (forall k :: 0 <= k < |q| ==> r[|faces| + k] == SplitAdded(faces[q[k]]))
  {
    Classification(faces);
  }
}
