/**
 * The first two phases of `Mesh._connectivity`: the vertex/vertex and
 * vertex/faces maps, then the face/faces map and the directed boundary edges
 * derived from intersections of incident-face sets.
 *
 * The Python dictionaries `v_v`, `v_f` and `f_f` are keyed by `range(nv)` and
 * `range(nf)`; they are sequences of sets here, indexed by the same keys.
 * A `KeyError` on an out-of-range index, the `RuntimeError` on an intersection
 * of unexpected size and the `IndexError`/`ValueError` of the orientation
 * step are error outcomes.
 */
module Adjacency {
  import opened Faces
  import opened Renumber

  /** The slot before `k` in a cycle of `n` slots (`face_w[index - 1]` wraps around). */
  function Prev(k: nat, n: nat): (p: nat)
    requires k < n
    ensures p < n && k == (if p == n - 1 then 0 else p + 1)
  {
    if k == 0 then n - 1 else k - 1
  }

  /** Slot `j` of row `f` holds `v`, and `j` lies on the row's cycle. */
  predicate At(faces: seq<Face>, f: int, j: int, v: nat) {
    0 <= f < |faces| && 0 <= j < Arity(faces[f]) && faces[f][j] == v
  }

  /** Reading row `f`'s cycle, the slot before `j` holds `v` and slot `j` holds `u`. */
  predicate Step(faces: seq<Face>, f: int, j: int, v: nat, u: nat) {
    0 <= f < |faces| && 0 <= j < Arity(faces[f])
    && faces[f][Prev(j, Arity(faces[f]))] == v && faces[f][j] == u
  }

  /** `v` and `u` are neighbours on the cycle of some row, in either direction. */
  ghost predicate Consecutive(faces: seq<Face>, v: nat, u: nat) {
    exists f, j :: Step(faces, f, j, v, u) || Step(faces, f, j, u, v)
  }

  /** Slot `j` of row `f` has been handled once the loops reach row `n`, slot `s`. */
  predicate Done(n: int, s: int, f: int, j: int) {
    f < n || (f == n && j < s)
  }

  /** `v` sits in one of the handled slots of row `f`. */
  ghost predicate IncidentSoFar(faces: seq<Face>, n: int, s: int, v: nat, f: int) {
    exists j :: Done(n, s, f, j) && At(faces, f, j, v)
  }

  /** `v` and `u` are neighbours at one of the handled slots. */
  ghost predicate LinkedSoFar(faces: seq<Face>, n: int, s: int, v: nat, u: nat) {
    exists f, j :: Done(n, s, f, j) && (Step(faces, f, j, v, u) || Step(faces, f, j, u, v))
  }

  /** Row `f` exists and its cycle passes through `v`. */
  predicate Incident(faces: seq<Face>, v: nat, f: int) {
    0 <= f < |faces| && v in Cycle(faces[f])
  }

  /** The two vertex maps as the first phase leaves them. */
  ghost predicate VertexMapsOf(faces: seq<Face>, nv: nat, vv: seq<set<nat>>, vf: seq<set<nat>>) {
    && |vv| == nv && |vf| == nv
    && (forall v, f :: 0 <= v < nv ==> (f in vf[v] <==> Incident(faces, v, f)))
    && (forall v, u :: 0 <= v < nv ==> (u in vv[v] <==> Consecutive(faces, v, u)))
  }

  /** `vf` records exactly the incidences of the handled slots. */
  ghost predicate IncidenceUpTo(faces: seq<Face>, nv: nat, vf: seq<set<nat>>, n: int, s: int) {
    |vf| == nv && forall v, f :: 0 <= v < nv ==> (f in vf[v] <==> IncidentSoFar(faces, n, s, v, f))
  }

  /** `vv` records exactly the neighbour pairs of the handled slots. */
  ghost predicate LinksUpTo(faces: seq<Face>, nv: nat, vv: seq<set<nat>>, n: int, s: int) {
    |vv| == nv && forall v, u :: 0 <= v < nv ==> (u in vv[v] <==> LinkedSoFar(faces, n, s, v, u))
  }

  /** `v_f[iV].add(iface)`. */
  function AddIncidence(vf: seq<set<nat>>, v: nat, f: nat): (r: seq<set<nat>>)
    requires v < |vf|
    ensures |r| == |vf|
    ensures forall w, g :: 0 <= w < |vf| ==> (g in r[w] <==> g in vf[w] || (w == v && g == f))
  {
    vf[v := vf[v] + {f}]
  }

  /** `v_v[before].add(iV)` followed by `v_v[iV].add(before)`. */
  function AddLink(vv: seq<set<nat>>, before: nat, v: nat): (r: seq<set<nat>>)
    requires before < |vv| && v < |vv|
    ensures |r| == |vv|
    ensures forall w, u :: 0 <= w < |vv| ==>
      (u in r[w] <==> u in vv[w] || (w == before && u == v) || (w == v && u == before))
  {
    var w := vv[before := vv[before] + {v}];
    w[v := w[v] + {before}]
  }

  lemma IncidenceStep(faces: seq<Face>, nv: nat, vf: seq<set<nat>>, i: nat, k: nat)
    requires IncidenceUpTo(faces, nv, vf, i, k)
    requires i < |faces| && k < Arity(faces[i]) && faces[i][k] < nv
    ensures IncidenceUpTo(faces, nv, AddIncidence(vf, faces[i][k], i), i, k + 1)
  {
    var r := AddIncidence(vf, faces[i][k], i);
    forall v, f | 0 <= v < nv
      ensures f in r[v] <==> IncidentSoFar(faces, i, k + 1, v, f)
    {
      if IncidentSoFar(faces, i, k + 1, v, f) {
        var j :| Done(i, k + 1, f, j) && At(faces, f, j, v);
        if !(f == i && j == k) {
          assert Done(i, k, f, j);
        }
      }
      if v == faces[i][k] && f == i {
        assert Done(i, k + 1, i, k) && At(faces, i, k, v);
      }
    }
  }

  lemma LinkStep(faces: seq<Face>, nv: nat, vv: seq<set<nat>>, i: nat, k: nat)
    requires LinksUpTo(faces, nv, vv, i, k)
    requires i < |faces| && k < Arity(faces[i])
    requires faces[i][k] < nv && faces[i][Prev(k, Arity(faces[i]))] < nv
    ensures LinksUpTo(faces, nv, AddLink(vv, faces[i][Prev(k, Arity(faces[i]))], faces[i][k]), i, k + 1)
  {
    var before, iv := faces[i][Prev(k, Arity(faces[i]))], faces[i][k];
    var r := AddLink(vv, before, iv);
    assert Step(faces, i, k, before, iv) && Done(i, k + 1, i, k);
    forall v, u | 0 <= v < nv
      ensures u in r[v] <==> LinkedSoFar(faces, i, k + 1, v, u)
    {
      if LinkedSoFar(faces, i, k + 1, v, u) {
        var f, j :| Done(i, k + 1, f, j) && (Step(faces, f, j, v, u) || Step(faces, f, j, u, v));
        if !(f == i && j == k) {
          assert Done(i, k, f, j);
        }
      }
    }
  }

  lemma NextRow(faces: seq<Face>, nv: nat, vv: seq<set<nat>>, vf: seq<set<nat>>, i: nat)
    requires i < |faces|
    requires IncidenceUpTo(faces, nv, vf, i, Arity(faces[i])) && LinksUpTo(faces, nv, vv, i, Arity(faces[i]))
    ensures IncidenceUpTo(faces, nv, vf, i + 1, 0) && LinksUpTo(faces, nv, vv, i + 1, 0)
  {
    var n := Arity(faces[i]);
    forall v, f | 0 <= v < nv
      ensures IncidentSoFar(faces, i, n, v, f) <==> IncidentSoFar(faces, i + 1, 0, v, f)
    {
      if IncidentSoFar(faces, i + 1, 0, v, f) {
        var j :| Done(i + 1, 0, f, j) && At(faces, f, j, v);
        assert Done(i, n, f, j);
      }
    }
    forall v, u | 0 <= v < nv
      ensures LinkedSoFar(faces, i, n, v, u) <==> LinkedSoFar(faces, i + 1, 0, v, u)
    {
      if LinkedSoFar(faces, i + 1, 0, v, u) {
        var f, j :| Done(i + 1, 0, f, j) && (Step(faces, f, j, v, u) || Step(faces, f, j, u, v));
        assert Done(i, n, f, j);
      }
    }
  }

  lemma AllRows(faces: seq<Face>, nv: nat, vv: seq<set<nat>>, vf: seq<set<nat>>)
    requires IncidenceUpTo(faces, nv, vf, |faces|, 0) && LinksUpTo(faces, nv, vv, |faces|, 0)
    ensures VertexMapsOf(faces, nv, vv, vf)
    ensures forall v, u :: 0 <= v < nv && 0 <= u < nv ==> (u in vv[v] <==> v in vv[u])
    ensures forall v, u :: 0 <= v < nv && u in vv[v] ==> u < nv || !InBounds(faces, nv)
  {
    forall v, f | 0 <= v < nv
      ensures f in vf[v] <==> Incident(faces, v, f)
    {
      if Incident(faces, v, f) {
        var c := Cycle(faces[f]);
        var j :| 0 <= j < |c| && c[j] == v;
        assert Done(|faces|, 0, f, j) && At(faces, f, j, v);
      }
    }
    forall v, u | 0 <= v < nv
      ensures u in vv[v] <==> Consecutive(faces, v, u)
    {
      if Consecutive(faces, v, u) {
        var f, j :| Step(faces, f, j, v, u) || Step(faces, f, j, u, v);
        assert Done(|faces|, 0, f, j);
      }
    }
    forall v, u | 0 <= v < nv && 0 <= u < nv
      ensures u in vv[v] <==> v in vv[u]
    {
      if u in vv[v] {
        var f, j :| Done(|faces|, 0, f, j) && (Step(faces, f, j, v, u) || Step(faces, f, j, u, v));
      }
      if v in vv[u] {
        var f, j :| Done(|faces|, 0, f, j) && (Step(faces, f, j, u, v) || Step(faces, f, j, v, u));
      }
    }
    forall v, u | 0 <= v < nv && u in vv[v] && InBounds(faces, nv) ensures u < nv {
      var f, j :| Done(|faces|, 0, f, j) && (Step(faces, f, j, v, u) || Step(faces, f, j, u, v));
    }
  }

  /**
   * First phase of `_connectivity`: for every row and every slot of its cycle, the
   * row joins `v_f` of the slot's vertex and the slot's vertex and the one before it
   * join each other's `v_v`.  It fails (the `KeyError` of the dictionaries) exactly
   * when some row names a vertex outside `0 .. nv-1`.  Otherwise `v_f[v]` is exactly
   * the set of rows whose cycle contains `v`, `v_v[v]` exactly the cycle neighbours
   * of `v`, and `v_v` is symmetric.
   */
  method VertexMaps(faces: seq<Face>, nv: nat) returns (ok: bool, vv: seq<set<nat>>, vf: seq<set<nat>>)
    ensures ok <==> InBounds(faces, nv)
    ensures ok ==> VertexMapsOf(faces, nv, vv, vf)
    ensures ok ==> forall v, u :: 0 <= v < nv && 0 <= u < nv ==> (u in vv[v] <==> v in vv[u])
    ensures ok ==> forall v, u :: 0 <= v < nv && u in vv[v] ==> u < nv
  {
    vv := seq(nv, v => {});
    vf := seq(nv, v => {});
    var i := 0;
    while i < |faces|
      invariant 0 <= i <= |faces|
      invariant forall f, j :: 0 <= f < i && 0 <= j < 4 ==> faces[f][j] < nv
      invariant IncidenceUpTo(faces, nv, vf, i, 0) && LinksUpTo(faces, nv, vv, i, 0)
    {
      var c := Cycle(faces[i]);
      var k := 0;
      while k < |c|
        invariant 0 <= k <= |c|
        invariant forall j :: 0 <= j < k ==> c[j] < nv
        invariant IncidenceUpTo(faces, nv, vf, i, k) && LinksUpTo(faces, nv, vv, i, k)
      {
        var iv := c[k];
        var before := c[Prev(k, |c|)];
        if iv >= nv || before >= nv {
          ok := false;
          assert faces[i][k] == iv && faces[i][Prev(k, |c|)] == before;
          return;
        }
        IncidenceStep(faces, nv, vf, i, k);
        LinkStep(faces, nv, vv, i, k);
        vf := AddIncidence(vf, iv, i);
        vv := AddLink(vv, before, iv);
        k := k + 1;
      }
      forall j | 0 <= j < 4 ensures faces[i][j] < nv {
        if j == 3 && IsTriangle(faces[i]) {
          assert faces[i][3] == c[0];
        } else {
          assert faces[i][j] == c[j];
        }
      }
      NextRow(faces, nv, vv, vf, i);
      i := i + 1;
    }
    ok := true;
    AllRows(faces, nv, vv, vf);
  }

  // ---------------------------------------------------------------------------
  // Second phase: face/faces adjacency and directed boundary edges
  // ---------------------------------------------------------------------------

  /** The exceptions `_connectivity` can raise. */
  datatype ConnectivityError =
    | MissingVertex            // the `KeyError` of `v_v` / `v_f` for an index outside `range(nv)`
    | UnexpectedIntersection   // the `RuntimeError` for an intersection of neither one nor two faces
    | BadOrientation           // `ids[1]` out of range, or too many values to unpack

  datatype Outcome<T> = Success(value: T) | Failure(error: ConnectivityError)

  /** `(boundary_face == ivertex) + (boundary_face == iadj_v)`. */
  function Matches(c: seq<nat>, a: nat, b: nat): (m: seq<bool>)
    ensures |m| == |c| && forall j :: 0 <= j < |c| ==> (m[j] <==> c[j] == a || c[j] == b)
  {
    seq(|c|, j requires 0 <= j < |c| => c[j] == a || c[j] == b)
  }

  /**
   * The directed edge `(i_v_orig, i_v_target)` recorded for a vertex pair lying in a
   * single face with cycle `c`: the two matching slots, taken in slot order unless
   * they are adjacent slots, in which case they are swapped.
   */
  function Orient(c: seq<nat>, a: nat, b: nat): (r: Outcome<(nat, nat)>)
    ensures r.Success? ==> (r.value.0 == a || r.value.0 == b) && (r.value.1 == a || r.value.1 == b)
  {
    var ids := Where(Matches(c, a, b));
    if |ids| != 2 then Failure(BadOrientation)
    else if ids[1] != ids[0] + 1 then Success((c[ids[0]], c[ids[1]]))
    else Success((c[ids[1]], c[ids[0]]))
  }

  /** A mask with exactly two set positions `p < q` selects `[p, q]`. */
  lemma WhereOfPair(mask: seq<bool>, p: nat, q: nat)
    requires p < q < |mask| && mask[p] && mask[q]
    requires forall j :: 0 <= j < |mask| && j != p && j != q ==> !mask[j]
    ensures Where(mask) == [p, q]
  {
    var r := Where(mask);
    forall x ensures x in r <==> x in [p, q] {
      if x in r {
        var k :| 0 <= k < |r| && r[k] == x;
      }
    }
    IncreasingUnique(r, [p, q]);
  }

  /**
   * A vertex pair that a proper face traverses as `a -> b` is recorded as the
   * boundary edge `b -> a`, whichever of the two is `ivertex`: boundary edges run
   * against the winding of their face.
   */
  lemma OrientOpposesWinding(f: Face, a: nat, b: nat)
    requires Proper(f, Arity(f)) && Follows(f, Arity(f), a, b)
    ensures Orient(Cycle(f), a, b) == Success((b, a))
    ensures Orient(Cycle(f), b, a) == Success((b, a))
  {
    var c := Cycle(f);
    var m1, m2 := Matches(c, a, b), Matches(c, b, a);
    assert m1 == m2;
    if f[0] == a && f[1] == b {
      WhereOfPair(m1, 0, 1);
    } else if f[1] == a && f[2] == b {
      WhereOfPair(m1, 1, 2);
    } else if Arity(f) == 3 {
      WhereOfPair(m1, 0, 2);
    } else if f[2] == a && f[3] == b {
      WhereOfPair(m1, 2, 3);
    } else {
      WhereOfPair(m1, 0, 3);
    }
  }

  /** `set1 & set2` for the pair `(v, u)`: the rows holding both vertices. */
  function Common(vf: seq<set<nat>>, v: nat, u: nat): set<nat>
    requires v < |vf| && u < |vf|
  {
    vf[v] * vf[u]
  }

  /** The pair `(v, u)` of `v_v` is handled without an exception. */
  predicate PairOk(faces: seq<Face>, vf: seq<set<nat>>, v: nat, u: nat)
    requires v < |vf| && u < |vf|
  {
    var inter := Common(vf, v, u);
    |inter| == 2 || (|inter| == 1 && forall f :: f in inter ==> f < |faces| && Orient(Cycle(faces[f]), v, u).Success?)
  }

  /** The exception handling the pair `(v, u)` of `v_v` raises. */
  predicate Raises(faces: seq<Face>, vf: seq<set<nat>>, v: nat, u: nat, err: ConnectivityError)
    requires v < |vf| && u < |vf|
  {
    var inter := Common(vf, v, u);
    || (err == UnexpectedIntersection && |inter| != 1 && |inter| != 2)
    || (err == BadOrientation && |inter| == 1 &&
        exists f :: f in inter && f < |faces| && Orient(Cycle(faces[f]), v, u).Failure?)
  }

  /** A pair goes through exactly when it raises nothing. */
  lemma PairOkIffNoRaise(faces: seq<Face>, vf: seq<set<nat>>, v: nat, u: nat)
    requires v < |vf| && u < |vf|
    requires forall f :: f in Common(vf, v, u) ==> f < |faces|
    ensures PairOk(faces, vf, v, u) <==> !Raises(faces, vf, v, u, UnexpectedIntersection) && !Raises(faces, vf, v, u, BadOrientation)
  {
  }

  /** The pair `(v, u)` of `v_v` lies in exactly the two distinct rows `f` and `g`. */
  ghost predicate SharedBy(vv: seq<set<nat>>, vf: seq<set<nat>>, v: nat, u: nat, f: nat, g: nat) {
    v < |vv| && |vv| == |vf| && u < |vf| && u in vv[v] && f != g && Common(vf, v, u) == {f, g}
  }

  /** The pair `(v, u)` of `v_v` lies in row `f` and in no other row. */
  ghost predicate OnlyIn(vv: seq<set<nat>>, vf: seq<set<nat>>, v: nat, u: nat, f: nat) {
    v < |vv| && |vv| == |vf| && u < |vf| && u in vv[v] && Common(vf, v, u) == {f}
  }

  /** The boundary edge recorded for the pair `(v, u)` lying only in row `f`. */
  ghost predicate RecordedAs(faces: seq<Face>, vv: seq<set<nat>>, vf: seq<set<nat>>,
                             v: nat, u: nat, f: nat, o: nat, t: nat) {
    OnlyIn(vv, vf, v, u, f) && f < |faces| && Orient(Cycle(faces[f]), v, u) == Success((o, t))
  }

  /** The pair `(v, u)` of `v_v` has been handled once the loops reach vertex `w` with `todo` left. */
  ghost predicate Handled(vv: seq<set<nat>>, w: nat, todo: set<nat>, v: nat, u: nat) {
    v < |vv| && u in vv[v] && (v < w || (v == w && u !in todo))
  }

  /** The pairs still to visit at vertex `w` when its inner loop starts. */
  function Pending(vv: seq<set<nat>>, w: nat): set<nat> {
    if w < |vv| then vv[w] else {}
  }

  /** Every handled pair went through without an exception. */
  ghost predicate OkUpTo(faces: seq<Face>, vv: seq<set<nat>>, vf: seq<set<nat>>, w: nat, todo: set<nat>) {
    |vf| == |vv| &&
    forall v: nat, u: nat :: Handled(vv, w, todo, v, u) ==> u < |vf| && PairOk(faces, vf, v, u)
  }

  /** `ff` holds exactly the face pairs of the handled two-face pairs. */
  ghost predicate AdjacencyUpTo(faces: seq<Face>, vv: seq<set<nat>>, vf: seq<set<nat>>,
                                ff: seq<set<nat>>, w: nat, todo: set<nat>) {
    |ff| == |faces| &&
    forall f: nat, g: nat :: f < |faces| ==>
      (g in ff[f] <==> exists v: nat, u: nat :: Handled(vv, w, todo, v, u) && SharedBy(vv, vf, v, u, f, g))
  }

  /** Every key of `edges` was recorded by a handled one-face pair, and every such pair left its origin as a key. */
  ghost predicate EdgesUpTo(faces: seq<Face>, vv: seq<set<nat>>, vf: seq<set<nat>>,
                            edges: map<nat, nat>, w: nat, todo: set<nat>) {
    && (forall o :: o in edges ==>
          exists v: nat, u: nat, f: nat :: Handled(vv, w, todo, v, u) && RecordedAs(faces, vv, vf, v, u, f, o, edges[o]))
    && (forall v: nat, u: nat, f: nat, o: nat, t: nat ::
          Handled(vv, w, todo, v, u) && RecordedAs(faces, vv, vf, v, u, f, o, t) ==> o in edges)
  }

  lemma PairFacts(faces: seq<Face>, vv: seq<set<nat>>, vf: seq<set<nat>>, v: nat, u: nat)
    requires VertexMapsOf(faces, |vv|, vv, vf) && InBounds(faces, |vv|)
    requires v < |vv| && u in vv[v]
    ensures u < |vv| && (forall f :: f in Common(vf, v, u) ==> f < |faces|) && |Common(vf, v, u)| >= 1
  {
    var f, j :| Step(faces, f, j, v, u) || Step(faces, f, j, u, v);
    assert faces[f][Prev(j, Arity(faces[f]))] < |vv| && faces[f][j] < |vv|;
    assert v in Cycle(faces[f]) && u in Cycle(faces[f]);
    assert f in Common(vf, v, u);
    forall g | g in Common(vf, v, u) ensures g < |faces| {
      assert g in vf[v] * vf[u];
      assert g in vf[v];
    }
  }

  /** Two distinct members of a two-element set are all of it. */
  lemma PairSet(s: set<nat>, a: nat, b: nat)
    requires |s| == 2 && a in s && b in s && a != b
    ensures s == {a, b}
  {
    var rest := s - {a, b};
    assert s == rest + {a, b};
    assert |rest| == 0;
  }

  /** A one-element set is the singleton of its member. */
  lemma SingletonSet(s: set<nat>, a: nat)
    requires |s| == 1 && a in s
    ensures s == {a}
  {
    var rest := s - {a};
    assert s == rest + {a};
    assert |rest| == 0;
  }

  lemma OkStep(faces: seq<Face>, vv: seq<set<nat>>, vf: seq<set<nat>>, w: nat, todo: set<nat>, u: nat)
    requires OkUpTo(faces, vv, vf, w, todo)
    requires w < |vv| && u in vv[w] && u < |vf| && PairOk(faces, vf, w, u)
    ensures OkUpTo(faces, vv, vf, w, todo - {u})
  {
    forall v: nat, x: nat | Handled(vv, w, todo - {u}, v, x) ensures x < |vf| && PairOk(faces, vf, v, x) {
      if !(v == w && x == u) {
        assert Handled(vv, w, todo, v, x);
      }
    }
  }

  /** A two-face pair `{a, b}` adds `a` and `b` to each other's `f_f`. */
  lemma AdjacencyStepShared(faces: seq<Face>, vv: seq<set<nat>>, vf: seq<set<nat>>,
                            ff: seq<set<nat>>, w: nat, todo: set<nat>, u: nat, a: nat, b: nat)
    requires AdjacencyUpTo(faces, vv, vf, ff, w, todo)
    requires w < |vv| == |vf| && u < |vf| && u in vv[w] && a != b && Common(vf, w, u) == {a, b}
    requires a < |faces| && b < |faces|
    ensures AdjacencyUpTo(faces, vv, vf, AddLink(ff, a, b), w, todo - {u})
  {
    var ff', todo' := AddLink(ff, a, b), todo - {u};
    assert Handled(vv, w, todo', w, u);
    assert SharedBy(vv, vf, w, u, a, b) && SharedBy(vv, vf, w, u, b, a);
    forall f: nat, g: nat | f < |faces|
      ensures g in ff'[f] <==> exists v: nat, x: nat :: Handled(vv, w, todo', v, x) && SharedBy(vv, vf, v, x, f, g)
    {
      if exists v: nat, x: nat :: Handled(vv, w, todo', v, x) && SharedBy(vv, vf, v, x, f, g) {
        var v: nat, x: nat :| Handled(vv, w, todo', v, x) && SharedBy(vv, vf, v, x, f, g);
        if !(v == w && x == u) {
          assert Handled(vv, w, todo, v, x);
        } else {
          assert f in {a, b} && g in {a, b};
        }
      }
      if g in ff[f] {
        var v: nat, x: nat :| Handled(vv, w, todo, v, x) && SharedBy(vv, vf, v, x, f, g);
        assert Handled(vv, w, todo', v, x);
      }
    }
  }

  /** A one-face pair leaves `f_f` alone. */
  lemma AdjacencyStepAlone(faces: seq<Face>, vv: seq<set<nat>>, vf: seq<set<nat>>,
                           ff: seq<set<nat>>, w: nat, todo: set<nat>, u: nat, f0: nat)
    requires AdjacencyUpTo(faces, vv, vf, ff, w, todo)
    requires w < |vv| == |vf| && u < |vf| && u in vv[w] && Common(vf, w, u) == {f0}
    ensures AdjacencyUpTo(faces, vv, vf, ff, w, todo - {u})
  {
    var todo' := todo - {u};
    forall f: nat, g: nat | f < |faces|
      ensures g in ff[f] <==> exists v: nat, x: nat :: Handled(vv, w, todo', v, x) && SharedBy(vv, vf, v, x, f, g)
    {
      if exists v: nat, x: nat :: Handled(vv, w, todo', v, x) && SharedBy(vv, vf, v, x, f, g) {
        var v: nat, x: nat :| Handled(vv, w, todo', v, x) && SharedBy(vv, vf, v, x, f, g);
        if v == w && x == u {
          assert false;
        }
        assert Handled(vv, w, todo, v, x);
      }
      if g in ff[f] {
        var v: nat, x: nat :| Handled(vv, w, todo, v, x) && SharedBy(vv, vf, v, x, f, g);
        assert Handled(vv, w, todo', v, x);
      }
    }
  }

  /** A two-face pair leaves the boundary edges alone. */
  lemma EdgesStepShared(faces: seq<Face>, vv: seq<set<nat>>, vf: seq<set<nat>>,
                        edges: map<nat, nat>, w: nat, todo: set<nat>, u: nat, a: nat, b: nat)
    requires EdgesUpTo(faces, vv, vf, edges, w, todo)
    requires w < |vv| == |vf| && u < |vf| && u in vv[w] && a != b && Common(vf, w, u) == {a, b}
    ensures EdgesUpTo(faces, vv, vf, edges, w, todo - {u})
  {
    var todo' := todo - {u};
    forall o | o in edges
      ensures exists v: nat, x: nat, f: nat :: Handled(vv, w, todo', v, x) && RecordedAs(faces, vv, vf, v, x, f, o, edges[o])
    {
      var v: nat, x: nat, f: nat :| Handled(vv, w, todo, v, x) && RecordedAs(faces, vv, vf, v, x, f, o, edges[o]);
      assert Handled(vv, w, todo', v, x);
    }
    forall v: nat, x: nat, f: nat, o: nat, t: nat | Handled(vv, w, todo', v, x) && RecordedAs(faces, vv, vf, v, x, f, o, t)
      ensures o in edges
    {
      if v == w && x == u {
        assert false;
      }
      assert Handled(vv, w, todo, v, x);
    }
  }

  /** A one-face pair records (or overwrites) the edge `edges[o] = t`. */
  lemma EdgesStepAlone(faces: seq<Face>, vv: seq<set<nat>>, vf: seq<set<nat>>,
                       edges: map<nat, nat>, w: nat, todo: set<nat>, u: nat, f0: nat, o0: nat, t0: nat)
    requires EdgesUpTo(faces, vv, vf, edges, w, todo)
    requires w < |vv| == |vf| && u < |vf| && u in vv[w] && Common(vf, w, u) == {f0}
    requires f0 < |faces| && Orient(Cycle(faces[f0]), w, u) == Success((o0, t0))
    ensures EdgesUpTo(faces, vv, vf, edges[o0 := t0], w, todo - {u})
  {
    var edges', todo' := edges[o0 := t0], todo - {u};
    assert Handled(vv, w, todo', w, u) && RecordedAs(faces, vv, vf, w, u, f0, o0, t0);
    forall o | o in edges'
      ensures exists v: nat, x: nat, f: nat :: Handled(vv, w, todo', v, x) && RecordedAs(faces, vv, vf, v, x, f, o, edges'[o])
    {
      if o != o0 {
        var v: nat, x: nat, f: nat :| Handled(vv, w, todo, v, x) && RecordedAs(faces, vv, vf, v, x, f, o, edges[o]);
        assert Handled(vv, w, todo', v, x);
      }
    }
    forall v: nat, x: nat, f: nat, o: nat, t: nat | Handled(vv, w, todo', v, x) && RecordedAs(faces, vv, vf, v, x, f, o, t)
      ensures o in edges'
    {
      if !(v == w && x == u) {
        assert Handled(vv, w, todo, v, x);
      }
    }
  }

  /** Finishing vertex `w` is the same as starting vertex `w + 1`. */
  lemma NextVertex(faces: seq<Face>, vv: seq<set<nat>>, vf: seq<set<nat>>,
                   ff: seq<set<nat>>, edges: map<nat, nat>, w: nat)
    requires w < |vv|
    requires OkUpTo(faces, vv, vf, w, {}) && AdjacencyUpTo(faces, vv, vf, ff, w, {})
    requires EdgesUpTo(faces, vv, vf, edges, w, {})
    ensures OkUpTo(faces, vv, vf, w + 1, Pending(vv, w + 1))
    ensures AdjacencyUpTo(faces, vv, vf, ff, w + 1, Pending(vv, w + 1))
    ensures EdgesUpTo(faces, vv, vf, edges, w + 1, Pending(vv, w + 1))
  {
    forall v: nat, u: nat ensures Handled(vv, w, {}, v, u) <==> Handled(vv, w + 1, Pending(vv, w + 1), v, u) {
    }
  }

  /** The face/faces map as `_connectivity` leaves it: `g in f_f[f]` iff some `v_v` pair lies in exactly rows `f` and `g`. */
  ghost predicate AdjacencyOf(faces: seq<Face>, vv: seq<set<nat>>, vf: seq<set<nat>>, ff: seq<set<nat>>) {
    |ff| == |faces| &&
    forall f: nat, g: nat :: f < |faces| ==> (g in ff[f] <==> exists v: nat, u: nat :: SharedBy(vv, vf, v, u, f, g))
  }

  /**
   * The boundary-edge map as `_connectivity` leaves it before the walk: every key was
   * recorded by a `v_v` pair lying in a single row, and every such pair left its
   * origin as a key (possibly overwritten by a later pair with the same origin).
   */
  ghost predicate BoundaryEdgesOf(faces: seq<Face>, vv: seq<set<nat>>, vf: seq<set<nat>>, edges: map<nat, nat>) {
    && (forall o :: o in edges ==> exists v: nat, u: nat, f: nat :: RecordedAs(faces, vv, vf, v, u, f, o, edges[o]))
    && (forall v: nat, u: nat, f: nat, o: nat, t: nat :: RecordedAs(faces, vv, vf, v, u, f, o, t) ==> o in edges)
  }

  /** No exception is raised for any pair of `v_v`. */
  predicate AllPairsOk(faces: seq<Face>, vv: seq<set<nat>>, vf: seq<set<nat>>)
    requires |vv| == |vf|
  {
    forall v: nat, u :: v < |vv| && u in vv[v] ==> u < |vf| && PairOk(faces, vf, v, u)
  }

  lemma AllVertices(faces: seq<Face>, vv: seq<set<nat>>, vf: seq<set<nat>>, ff: seq<set<nat>>, edges: map<nat, nat>)
    requires OkUpTo(faces, vv, vf, |vv|, {}) && AdjacencyUpTo(faces, vv, vf, ff, |vv|, {})
    requires EdgesUpTo(faces, vv, vf, edges, |vv|, {})
    ensures AllPairsOk(faces, vv, vf) && AdjacencyOf(faces, vv, vf, ff) && BoundaryEdgesOf(faces, vv, vf, edges)
  {
    forall v: nat, u: nat ensures Handled(vv, |vv|, {}, v, u) <==> v < |vv| && u in vv[v] {
    }
    forall o | o in edges ensures exists v: nat, u: nat, f: nat :: RecordedAs(faces, vv, vf, v, u, f, o, edges[o]) {
      var v: nat, u: nat, f: nat :| Handled(vv, |vv|, {}, v, u) && RecordedAs(faces, vv, vf, v, u, f, o, edges[o]);
    }
    forall f: nat, g: nat | f < |faces|
      ensures g in ff[f] <==> exists v: nat, u: nat :: SharedBy(vv, vf, v, u, f, g)
    {
      if exists v: nat, u: nat :: SharedBy(vv, vf, v, u, f, g) {
        var v: nat, u: nat :| SharedBy(vv, vf, v, u, f, g);
        assert Handled(vv, |vv|, {}, v, u);
      }
    }
    forall v: nat, u: nat, f: nat, o: nat, t: nat | RecordedAs(faces, vv, vf, v, u, f, o, t) ensures o in edges {
      assert Handled(vv, |vv|, {}, v, u);
    }
  }

  /**
   * The body of the inner loop of the second phase for the pair `(w, u)`:
   * `intersection = list(set1 & set2)` and its three cases.
   */
  method HandlePair(faces: seq<Face>, vv: seq<set<nat>>, vf: seq<set<nat>>,
                    ff: seq<set<nat>>, edges: map<nat, nat>, w: nat, todo: set<nat>, u: nat)
      returns (ok: bool, err: ConnectivityError, ff': seq<set<nat>>, edges': map<nat, nat>)
    requires VertexMapsOf(faces, |vv|, vv, vf) && InBounds(faces, |vv|)
    requires w < |vv| && u in todo && todo <= vv[w]
    requires OkUpTo(faces, vv, vf, w, todo) && AdjacencyUpTo(faces, vv, vf, ff, w, todo)
    requires EdgesUpTo(faces, vv, vf, edges, w, todo)
    ensures !ok ==> u < |vf| && !PairOk(faces, vf, w, u) && Raises(faces, vf, w, u, err)
    ensures ok ==> OkUpTo(faces, vv, vf, w, todo - {u}) && AdjacencyUpTo(faces, vv, vf, ff', w, todo - {u})
    ensures ok ==> EdgesUpTo(faces, vv, vf, edges', w, todo - {u})
  {
    PairFacts(faces, vv, vf, w, u);
    ff', edges', err := ff, edges, UnexpectedIntersection;
    var inter := Common(vf, w, u);
    if |inter| == 2 {
      var a :| a in inter;
      assert inter - {a} != {} by {
        assert |inter - {a}| == 1;
      }
      var b :| b in inter - {a};
      PairSet(inter, a, b);
      OkStep(faces, vv, vf, w, todo, u);
      AdjacencyStepShared(faces, vv, vf, ff, w, todo, u, a, b);
      EdgesStepShared(faces, vv, vf, edges, w, todo, u, a, b);
      ok, ff' := true, AddLink(ff, a, b);
    } else if |inter| == 1 {
      var f :| f in inter;
      SingletonSet(inter, f);
      var r := Orient(Cycle(faces[f]), w, u);
      if r.Failure? {
        ok, err := false, BadOrientation;
        return;
      }
      OkStep(faces, vv, vf, w, todo, u);
      AdjacencyStepAlone(faces, vv, vf, ff, w, todo, u, f);
      EdgesStepAlone(faces, vv, vf, edges, w, todo, u, f, r.value.0, r.value.1);
      ok, edges' := true, edges[r.value.0 := r.value.1];
    } else {
      ok := false;
    }
  }

  /**
   * Second phase of `_connectivity`.  For every vertex and every member of its `v_v`
   * set (in any order) the rows holding both are intersected: two rows become each
   * other's `f_f` neighbours, a single row records a directed boundary edge with
   * `Orient`, any other count raises.  The phase fails exactly when some pair of
   * `v_v` fails; otherwise `f_f` and the boundary edges are exactly what the pairs
   * determine, `f_f` is symmetric and no row is its own neighbour.
   */
  method FaceMaps(faces: seq<Face>, vv: seq<set<nat>>, vf: seq<set<nat>>)
      returns (ok: bool, err: ConnectivityError, ff: seq<set<nat>>, edges: map<nat, nat>)
    requires VertexMapsOf(faces, |vv|, vv, vf) && InBounds(faces, |vv|)
    ensures ok <==> AllPairsOk(faces, vv, vf)
    ensures !ok ==> exists v: nat, u :: v < |vv| && u in vv[v] && u < |vf| && Raises(faces, vf, v, u, err)
    ensures ok ==> AdjacencyOf(faces, vv, vf, ff) && BoundaryEdgesOf(faces, vv, vf, edges)
    ensures ok ==> SymmetricFaces(ff, |faces|)
  {
    err := UnexpectedIntersection;
    ff := seq(|faces|, f => {});
    edges := map[];
    var w := 0;
    while w < |vv|
      invariant w <= |vv|
      invariant OkUpTo(faces, vv, vf, w, Pending(vv, w))
      invariant AdjacencyUpTo(faces, vv, vf, ff, w, Pending(vv, w))
      invariant EdgesUpTo(faces, vv, vf, edges, w, Pending(vv, w))
    {
      var todo := vv[w];
      while todo != {}
        invariant todo <= vv[w]
        invariant OkUpTo(faces, vv, vf, w, todo) && AdjacencyUpTo(faces, vv, vf, ff, w, todo)
        invariant EdgesUpTo(faces, vv, vf, edges, w, todo)
        decreases |todo|
      {
        var u :| u in todo;
        var handled;
        handled, err, ff, edges := HandlePair(faces, vv, vf, ff, edges, w, todo, u);
        if !handled {
          ok := false;
          return;
        }
        todo := todo - {u};
      }
      NextVertex(faces, vv, vf, ff, edges, w);
      w := w + 1;
    }
    ok := true;
    AllVertices(faces, vv, vf, ff, edges);
    AdjacencySymmetric(faces, vv, vf, ff);
  }

  /** A set of faces per face, naming other faces only, each naming back. */
  predicate SymmetricFaces(ff: seq<set<nat>>, n: nat) {
    |ff| == n && forall f, g :: 0 <= f < n && g in ff[f] ==> g < n && g != f && f in ff[g]
  }

  /** `f_f` is symmetric, irreflexive and stays within the rows. */
  lemma AdjacencySymmetric(faces: seq<Face>, vv: seq<set<nat>>, vf: seq<set<nat>>, ff: seq<set<nat>>)
    requires VertexMapsOf(faces, |vv|, vv, vf) && AdjacencyOf(faces, vv, vf, ff)
    ensures SymmetricFaces(ff, |faces|)
  {
    forall f, g | 0 <= f < |faces| && g in ff[f] ensures g < |faces| && g != f && f in ff[g] {
      var v: nat, u: nat :| SharedBy(vv, vf, v, u, f, g);
      assert g in Common(vf, v, u);
      assert g in vf[v];
      assert {f, g} == {g, f};
      assert SharedBy(vv, vf, v, u, g, f);
    }
  }

  // ---------------------------------------------------------------------------
  // What the two phases determine
  // ---------------------------------------------------------------------------

  /** The vertex maps are determined by the rows: the first phase has one possible outcome. */
  lemma VertexMapsUnique(faces: seq<Face>, nv: nat, vv1: seq<set<nat>>, vf1: seq<set<nat>>,
                         vv2: seq<set<nat>>, vf2: seq<set<nat>>)
    requires VertexMapsOf(faces, nv, vv1, vf1) && VertexMapsOf(faces, nv, vv2, vf2)
    ensures vv1 == vv2 && vf1 == vf2
  {
    forall v | 0 <= v < nv ensures vv1[v] == vv2[v] && vf1[v] == vf2[v] {
      assert forall u :: u in vv1[v] <==> u in vv2[v];
      assert forall f :: f in vf1[v] <==> f in vf2[v];
    }
  }

  /** A step of a row's cycle is an edge the row traverses in that direction. */
  lemma StepFollows(faces: seq<Face>, f: int, j: int, v: nat, u: nat)
    requires Step(faces, f, j, v, u)
    ensures Follows(faces[f], Arity(faces[f]), v, u)
  {
  }

  /**
   * A boundary edge runs against the winding of its face: when the pair `(v, u)` lies
   * only in row `f` and that row is a proper polygon, the recorded edge `o -> t`
   * joins the pair and the row traverses it as `t -> o`.
   */
  lemma BoundaryEdgeAgainstWinding(faces: seq<Face>, vv: seq<set<nat>>, vf: seq<set<nat>>,
                                   v: nat, u: nat, f: nat, o: nat, t: nat)
    requires VertexMapsOf(faces, |vv|, vv, vf)
    requires RecordedAs(faces, vv, vf, v, u, f, o, t) && Proper(faces[f], Arity(faces[f]))
    ensures {o, t} == {v, u} && Follows(faces[f], Arity(faces[f]), t, o)
  {
    var g, j :| Step(faces, g, j, v, u) || Step(faces, g, j, u, v);
    assert faces[g][Prev(j, Arity(faces[g]))] in Cycle(faces[g]) && faces[g][j] in Cycle(faces[g]);
    assert Incident(faces, v, g) && Incident(faces, u, g);
    assert g in Common(vf, v, u);
    if Step(faces, g, j, v, u) {
      StepFollows(faces, g, j, v, u);
      OrientOpposesWinding(faces[f], v, u);
    } else {
      StepFollows(faces, g, j, u, v);
      OrientOpposesWinding(faces[f], u, v);
    }
  }

  /** Every pair of `v_v` lies in exactly two rows: no edge of the surface is on its boundary. */
  ghost predicate Watertight(vv: seq<set<nat>>, vf: seq<set<nat>>) {
    |vv| == |vf| && forall v: nat, u :: v < |vv| && u in vv[v] ==> u < |vf| && |Common(vf, v, u)| == 2
  }

  /**
   * When every pair goes through, the boundary-edge map is empty exactly when the
   * surface is watertight.
   */
  lemma NoEdgesIffWatertight(faces: seq<Face>, vv: seq<set<nat>>, vf: seq<set<nat>>, edges: map<nat, nat>)
    requires |vv| == |vf| && AllPairsOk(faces, vv, vf) && BoundaryEdgesOf(faces, vv, vf, edges)
    ensures edges == map[] <==> Watertight(vv, vf)
  {
    if edges == map[] {
      forall v: nat, u | v < |vv| && u in vv[v] ensures u < |vf| && |Common(vf, v, u)| == 2 {
        if |Common(vf, v, u)| != 2 {
          var f :| f in Common(vf, v, u);
          SingletonSet(Common(vf, v, u), f);
          var r := Orient(Cycle(faces[f]), v, u);
          assert RecordedAs(faces, vv, vf, v, u, f, r.value.0, r.value.1);
        }
      }
    }
  }
}
