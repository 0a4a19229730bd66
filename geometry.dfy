/**
 * The floating-point formulas of `_faces_properties` and `_compute_radiuses` on
 * exact reals, enough to show what a moved split diagonal or a scaled mesh does to
 * the entries a cache keeps.
 */
module Geometry {
  import opened Faces
  import opened MeshCache

  /**
   * Four times the squared area of the triangle on the corners `c[0]`, `c[i]` and
   * `c[2]`: the squared length of `np.cross(c[i] - c[0], c[2] - c[0])`.
   */
  function CrossSq(c: seq<Point>, i: nat): real
    requires |c| == 4 && i < 4
  {
    var ux, uy, uz := c[i].x - c[0].x, c[i].y - c[0].y, c[i].z - c[0].z;
    var vx, vy, vz := c[2].x - c[0].x, c[2].y - c[0].y, c[2].z - c[0].z;
    var nx, ny, nz := uy * vz - uz * vy, uz * vx - ux * vz, ux * vy - uy * vx;
    nx * nx + ny * ny + nz * nz
  }

  /**
   * `a1` and `a2` are the areas `_faces_properties` gives the two halves of a
   * quadrangle with corners `c`, split along the diagonal from its first to its third
   * corner; its `faces_areas` entry is `a1 + a2`.  Each is half the length of a cross
   * product, stated through its square.
   */
  predicate SplitAreas(c: seq<Point>, a1: real, a2: real)
    requires |c| == 4
  {
    && 0.0 <= a1 && 0.0 <= a2
    && 4.0 * (a1 * a1) == CrossSq(c, 1)
    && 4.0 * (a2 * a2) == CrossSq(c, 3)
  }

  /**
   * The squared distance from corner `j` of a triangle row to the center
   * `_faces_properties` gives it, the mean of its first three corners.
   */
  function CornerDistSq(c: seq<Point>, j: nat): real
    requires |c| == 4 && j < 4
  {
    var mx, my, mz := (c[0].x + c[1].x + c[2].x) / 3.0, (c[0].y + c[1].y + c[2].y) / 3.0, (c[0].z + c[1].z + c[2].z) / 3.0;
    var dx, dy, dz := c[j].x - mx, c[j].y - my, c[j].z - mz;
    dx * dx + dy * dy + dz * dz
  }

  /**
   * `r` is the radius `_compute_radiuses` gives a triangle row with corners `c`: the
   * largest distance from its center to one of its four corners.
   */
  predicate TriangleRadius(c: seq<Point>, r: real)
    requires |c| == 4
  {
    && 0.0 <= r
    && (forall j :: 0 <= j < 4 ==> CornerDistSq(c, j) <= r * r)
    && (exists j :: 0 <= j < 4 && CornerDistSq(c, j) == r * r)
  }

  /** The largest squared distance from the center to a corner fixes a triangle's radius. */
  lemma RadiusOfLargest(c: seq<Point>, r: real, k: nat)
    requires |c| == 4 && k < 4 && TriangleRadius(c, r)
    requires forall j :: 0 <= j < 4 ==> CornerDistSq(c, j) <= CornerDistSq(c, k)
    ensures r * r == CornerDistSq(c, k)
  {
  }

  /** Squaring is increasing on the non-negative reals. */
  lemma SquareGrows(x: real, y: real)
    ensures 0.0 <= x < y ==> x * x < y * y
  {
    if 0.0 <= x < y {
      var d, t := y - x, y + x;
      assert 0.0 < d * t;
      assert y * y - x * x == d * t;
    }
  }

  /** Two non-negative reals with the same square are equal. */
  lemma SameRoot(x: real, y: real)
    requires 0.0 <= x && 0.0 <= y && x * x == y * y
    ensures x == y
  {
    SquareGrows(x, y);
    SquareGrows(y, x);
  }

  /** Non-negative roots of these squares cannot have equal sums. */
  lemma UnequalRootSums(a1: real, a2: real, b1: real, b2: real)
    requires 0.0 <= a1 && 0.0 <= a2 && 0.0 <= b1 && 0.0 <= b2
    requires a1 * a1 == 0.5 && a2 * a2 == 0.5 && b1 * b1 == 0.75 && b2 * b2 == 0.25
    ensures a1 + a2 != b1 + b2
  {
    SameRoot(a1, a2);
    SameRoot(b2, 0.5);
    SquareGrows(a1, 0.7);
    SquareGrows(0.87, b1);
  }

  /** The non-negative root of four times a square is twice its root. */
  lemma DoubledRoot(r: real, r': real)
    requires 0.0 <= r && 0.0 <= r'
    requires r * r == 5.0 / 9.0 && r' * r' == 20.0 / 9.0
    ensures r' == 2.0 * r && r' != r
  {
    assert (2.0 * r) * (2.0 * r) == 4.0 * (r * r);
    SameRoot(r', 2.0 * r);
  }

  /** The non-planar quadrangle `(0,0,0) (1,0,0) (1,1,1) (0,1,0)`. */
  const BentVertices: seq<Point> := [Point(0.0, 0.0, 0.0), Point(1.0, 0.0, 0.0), Point(1.0, 1.0, 1.0), Point(0.0, 1.0, 0.0)]
  const BentRow: Face := [0, 1, 2, 3]

  /** The corners of `BentRow` and of its reversal. */
  lemma BentCorners()
    ensures RowCorners(BentVertices, BentRow) ==
      [Point(0.0, 0.0, 0.0), Point(1.0, 0.0, 0.0), Point(1.0, 1.0, 1.0), Point(0.0, 1.0, 0.0)]
    ensures RowCorners(BentVertices, Reverse(BentRow)) ==
      [Point(0.0, 1.0, 0.0), Point(1.0, 1.0, 1.0), Point(1.0, 0.0, 0.0), Point(0.0, 0.0, 0.0)]
  {
  }

  /** The squared doubled areas of the two halves of `BentRow` and of its reversal. */
  lemma BentAreas()
    ensures CrossSq(RowCorners(BentVertices, BentRow), 1) == 2.0
    ensures CrossSq(RowCorners(BentVertices, BentRow), 3) == 2.0
    ensures CrossSq(RowCorners(BentVertices, Reverse(BentRow)), 1) == 3.0
    ensures CrossSq(RowCorners(BentVertices, Reverse(BentRow)), 3) == 1.0
  {
    BentCorners();
  }

  /** Reversing a non-planar quadrangle changes its outline. */
  lemma ReversalMovesOutline()
    ensures Outlines(BentVertices, FlipAll([BentRow])) != Outlines(BentVertices, [BentRow])
  {
    BentCorners();
    var flipped := FlipAll([BentRow]);
    assert flipped[0] == Reverse(BentRow);
    assert Outlines(BentVertices, flipped)[0] != Outlines(BentVertices, [BentRow])[0];
  }

  /**
   * Reversing a non-planar quadrangle moves its split diagonal, and with it the
   * area `_faces_properties` computes: `sqrt(2)` for the row, `(1 + sqrt(3)) / 2`
   * for its reversal.
   */
  lemma ReversalMovesQuadArea(a1: real, a2: real, b1: real, b2: real)
    requires SplitAreas(RowCorners(BentVertices, BentRow), a1, a2)
    requires SplitAreas(RowCorners(BentVertices, Reverse(BentRow)), b1, b2)
    ensures a1 + a2 != b1 + b2
  {
    BentAreas();
    UnequalRootSums(a1, a2, b1, b2);
  }

  /** The right triangle `(0,0,0) (1,0,0) (0,1,0)`, and the factor that doubles it. */
  const RightVertices: seq<Point> := [Point(0.0, 0.0, 0.0), Point(1.0, 0.0, 0.0), Point(0.0, 1.0, 0.0)]
  const RightRow: Face := [0, 1, 2, 0]
  const Double := Point(2.0, 2.0, 2.0)

  /** The corners of `RightRow`, before and after doubling. */
  lemma RightCorners()
    ensures RowCorners(RightVertices, RightRow) ==
      [Point(0.0, 0.0, 0.0), Point(1.0, 0.0, 0.0), Point(0.0, 1.0, 0.0), Point(0.0, 0.0, 0.0)]
    ensures RowCorners(Scaled(RightVertices, Double), RightRow) ==
      [Point(0.0, 0.0, 0.0), Point(2.0, 0.0, 0.0), Point(0.0, 2.0, 0.0), Point(0.0, 0.0, 0.0)]
  {
    assert Scaled(RightVertices, Double) == [Point(0.0, 0.0, 0.0), Point(2.0, 0.0, 0.0), Point(0.0, 2.0, 0.0)];
  }

  /** Corner 1 is a farthest corner from the center of `RightRow`, before and after doubling. */
  lemma RightDistances()
    ensures var c := RowCorners(RightVertices, RightRow);
      forall j :: 0 <= j < 4 ==> CornerDistSq(c, j) <= CornerDistSq(c, 1) == 5.0 / 9.0
    ensures var c := RowCorners(Scaled(RightVertices, Double), RightRow);
      forall j :: 0 <= j < 4 ==> CornerDistSq(c, j) <= CornerDistSq(c, 1) == 20.0 / 9.0
  {
    RightCorners();
  }

  /** The first two vertices of `RightVertices` are 1 apart, and 2 apart once doubled. */
  lemma DoubledDistance()
    ensures DistSq(RightVertices[0], RightVertices[1]) == 1.0
    ensures DistSq(Scaled(RightVertices, Double)[0], Scaled(RightVertices, Double)[1]) == 4.0
  {
    var o, e, e2 := Point(0.0, 0.0, 0.0), Point(1.0, 0.0, 0.0), Point(2.0, 0.0, 0.0);
    assert RightVertices[0] == o && RightVertices[1] == e;
    assert NormSq(Diff(o, e)) == 1.0 by {
      assert Diff(o, e) == Point(-1.0, 0.0, 0.0);
    }
    assert Scaled(RightVertices, Double)[0] == o && Scaled(RightVertices, Double)[1] == e2;
    assert NormSq(Diff(o, e2)) == 4.0 by {
      assert Diff(o, e2) == Point(-2.0, 0.0, 0.0);
    }
  }

  /**
   * Doubling the coordinates of `RightVertices` keeps no distance, so it is no rigid
   * motion: the first two vertices move apart.
   */
  lemma DoublingIsNotIsometric()
    ensures !Isometric(RightVertices, Scaled(RightVertices, Double))
  {
    var image := Scaled(RightVertices, Double);
    assert DistSq(image[0], image[1]) != DistSq(RightVertices[0], RightVertices[1]) by {
      DoubledDistance();
    }
    MovedApart(RightVertices, image, 0, 1);
  }

  /**
   * Doubling every coordinate of a triangle moves its outline and doubles its radius,
   * `sqrt(5) / 3` before and `2 sqrt(5) / 3` after.
   */
  lemma ScalingDoublesRadius(r: real, r': real)
    requires TriangleRadius(RowCorners(RightVertices, RightRow), r)
    requires TriangleRadius(RowCorners(Scaled(RightVertices, Double), RightRow), r')
    ensures Outlines(Scaled(RightVertices, Double), [RightRow]) != Outlines(RightVertices, [RightRow])
    ensures r' == 2.0 * r && r' != r
  {
    RightCorners();
    var c, c' := RowCorners(RightVertices, RightRow), RowCorners(Scaled(RightVertices, Double), RightRow);
    RightDistances();
    RadiusOfLargest(c, r, 1);
    RadiusOfLargest(c', r', 1);
    DoubledRoot(r, r');
    assert Outlines(Scaled(RightVertices, Double), [RightRow])[0].others == multiset{c'[1], c'[2]};
    assert c'[1] !in multiset{c[1], c[2]};
  }
}
