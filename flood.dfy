/**
 * The flood fill of `Mesh.heal_normals`: starting from face 0 and then from the
 * lowest face not yet reached, faces are reached through the face/faces map; a
 * face reached through exactly two shared vertices is compared with the face it
 * was reached from and reversed when both run the shared edge the same way.  The
 * rows are reversed in place and the face/faces map loses, for every face reached
 * from a neighbour, the pointer back to that neighbour.
 */
module Flood {
  import opened Faces

  // ---------------------------------------------------------------------------
  // The orientation test
  // ---------------------------------------------------------------------------

  /** `set(face)`: the indices a row mentions. */
  function RowSet(r: Face): (s: set<nat>)
    ensures forall x :: x in s <==> x in r
  {
    {r[0], r[1], r[2], r[3]}
  }

  /** `np.where(face == x)[0][0]`: the first slot of the row holding `x`. */
  function FirstIndex(r: Face, x: nat): (k: nat)
    requires x in RowSet(r)
    ensures k < 4 && r[k] == x && forall j :: 0 <= j < k ==> r[j] != x
  {
    if r[0] == x then 0 else if r[1] == x then 1 else if r[2] == x then 2 else 3
  }

  /** `np.roll(face[:n], -k)`: the first `n` slots read from slot `k` onwards, wrapping around. */
  function Rolled(r: Face, n: nat, k: nat): (s: seq<nat>)
    requires n == 3 || n == 4
    ensures |s| == n && forall j :: 0 <= j < n ==> s[j] == r[(j + k) % n]
  {
    seq(n, j requires 0 <= j < n => r[(j + k) % n])
  }

  /**
   * The test of `heal_normals` for a face `c` (read with `nc` slots) reached from
   * `p` (read with `np` slots) through the shared vertices `v1`, `v2`: both rows are
   * rolled to start at `v1`; `i` is 1 when `p` continues from `v1` to `v2` and -1
   * otherwise; `c` is reversed when its rolled slot `i` holds `v2`.
   */
  predicate NeedsFlip(p: Face, np: nat, c: Face, nc: nat, v1: nat, v2: nat)
    requires (np == 3 || np == 4) && (nc == 3 || nc == 4)
    requires v1 in RowSet(p) && v1 in RowSet(c)
  {
    var pr := Rolled(p, np, FirstIndex(p, v1));
    var cr := Rolled(c, nc, FirstIndex(c, v1));
    var i := if pr[1] == v2 then 1 else nc - 1;
    cr[i] == v2
  }

  /** The row `c` leaves the test with: reversed (`np.flipud`) when the test says so. */
  function Fix(p: Face, np: nat, c: Face, nc: nat, v1: nat, v2: nat): (r: Face)
    requires (np == 3 || np == 4) && (nc == 3 || nc == 4)
    requires v1 in RowSet(p) && v1 in RowSet(c)
    ensures r == c || r == Reverse(c)
  {
    if NeedsFlip(p, np, c, nc, v1, v2) then Reverse(c) else c
  }

  /** `x` and `y` are neighbours on the cycle of `r` read with `n` slots. */
  predicate OnEdge(r: Face, n: nat, x: nat, y: nat)
    requires n == 3 || n == 4
  {
    Follows(r, n, x, y) || Follows(r, n, y, x)
  }

  /** Rolled to start at `x`, a proper row holds the successor of `x` in slot 1 and its predecessor last. */
  lemma RolledNeighbours(r: Face, n: nat, x: nat, y: nat)
    requires Proper(r, n) && x in RowSet(r)
    ensures var s := Rolled(r, n, FirstIndex(r, x));
      && s[0] == x
      && (s[1] == y <==> Follows(r, n, x, y))
      && (s[n - 1] == y <==> Follows(r, n, y, x))
  {
    var k := FirstIndex(r, x);
    var s := Rolled(r, n, k);
    if n == 3 {
      assert k < 3;
      if k == 0 {
        assert s == [r[0], r[1], r[2]];
      } else if k == 1 {
        assert s == [r[1], r[2], r[0]];
      } else {
        assert s == [r[2], r[0], r[1]];
      }
    } else {
      if k == 0 {
        assert s == [r[0], r[1], r[2], r[3]];
      } else if k == 1 {
        assert s == [r[1], r[2], r[3], r[0]];
      } else if k == 2 {
        assert s == [r[2], r[3], r[0], r[1]];
      } else {
        assert s == [r[3], r[0], r[1], r[2]];
      }
    }
  }

  /** On proper rows sharing the edge `{v1, v2}`, the test fires exactly when both run it the same way. */
  lemma NeedsFlipIffSameDirection(p: Face, np: nat, c: Face, nc: nat, v1: nat, v2: nat)
    requires Proper(p, np) && Proper(c, nc) && v1 != v2
    requires OnEdge(p, np, v1, v2) && OnEdge(c, nc, v1, v2)
    ensures v1 in RowSet(p) && v1 in RowSet(c)
    ensures NeedsFlip(p, np, c, nc, v1, v2) <==>
      (Follows(p, np, v1, v2) && Follows(c, nc, v1, v2)) || (Follows(p, np, v2, v1) && Follows(c, nc, v2, v1))
  {
    assert v1 in RowSet(p) && v1 in RowSet(c);
    RolledNeighbours(p, np, v1, v2);
    RolledNeighbours(c, nc, v1, v2);
    assert !(Follows(p, np, v1, v2) && Follows(p, np, v2, v1));
    assert !(Follows(c, nc, v1, v2) && Follows(c, nc, v2, v1));
  }

  /**
   * Local consistency: when a face `c` is reached from `p` through two vertices
   * joined by an edge of both cycles, the row `c` leaves the test with runs that edge
   * against `p`, and a second test of the pair would reverse nothing.
   */
  lemma FixOpposes(p: Face, np: nat, c: Face, nc: nat, v1: nat, v2: nat)
    requires Proper(p, np) && Proper(c, nc) && v1 != v2
    requires OnEdge(p, np, v1, v2) && OnEdge(c, nc, v1, v2)
    ensures v1 in RowSet(p) && v1 in RowSet(c)
    ensures var c' := Fix(p, np, c, nc, v1, v2);
      && Proper(c', nc)
      && (Follows(p, np, v1, v2) <==> Follows(c', nc, v2, v1))
      && (Follows(p, np, v2, v1) <==> Follows(c', nc, v1, v2))
      && !NeedsFlip(p, np, c', nc, v1, v2)
  {
    NeedsFlipIffSameDirection(p, np, c, nc, v1, v2);
    var c' := Fix(p, np, c, nc, v1, v2);
    ReverseFlipsEdges(c, nc, v1, v2);
    ReverseFlipsEdges(c, nc, v2, v1);
    NeedsFlipIffSameDirection(p, np, c', nc, v1, v2);
  }

  // ---------------------------------------------------------------------------
  // The flood
  // ---------------------------------------------------------------------------

  /** How the flood reached a face. */
  datatype Visit =
    | Unvisited
    | Root                                  // face 0, or a restart at the lowest face not yet reached
    | Skipped(parent: nat)                  // reached from `parent`, not sharing exactly two vertices with it
    | Checked(parent: nat, v1: nat, v2: nat) // reached from `parent` through the shared vertices `v1`, `v2`

  /** Every number is the number of slots `type_cell` gives: 3 or 4. */
  predicate CellTypes(arity: seq<nat>) {
    forall f :: 0 <= f < |arity| ==> arity[f] == 3 || arity[f] == 4
  }

  /** The face/faces map has a set per face and names faces only. */
  predicate FaceMap(ff: seq<set<nat>>, n: nat) {
    |ff| == n && forall f, g :: 0 <= f < n && g in ff[f] ==> g < n
  }

  /** `g in ff[f]` exactly when `f in ff[g]`. */
  predicate Symmetric(ff: seq<set<nat>>) {
    forall f, g :: 0 <= f < |ff| && g in ff[f] && g < |ff| ==> f in ff[g]
  }

  /** `f` was reached from the visited, pushed face `p`, and lost `p` from its neighbours. */
  ghost predicate Linked(ff0: seq<set<nat>>, ff: seq<set<nat>>, vis: seq<bool>, how: seq<Visit>,
                         stamp: seq<nat>, f: nat, p: nat)
    requires f < |ff0| == |ff| == |vis| == |how| == |stamp|
  {
    && p < |ff0| && vis[p] && !how[p].Skipped? && f in ff0[p] && p in ff0[f]
    && ff[f] == ff0[f] - {p} && stamp[p] < stamp[f]
  }

  /** What the flood state says about face `f`. */
  ghost predicate Status(rows0: seq<Face>, ff0: seq<set<nat>>, arity: seq<nat>, rows: seq<Face>,
                         ff: seq<set<nat>>, vis: seq<bool>, how: seq<Visit>, stamp: seq<nat>, clock: nat, f: nat)
    requires f < |rows0| == |ff0| == |arity| == |rows| == |ff| == |vis| == |how| == |stamp|
    requires CellTypes(arity)
  {
    && (vis[f] <==> !how[f].Unvisited?)
    && (rows[f] == rows0[f] || rows[f] == Reverse(rows0[f]))
    && (vis[f] ==> stamp[f] < clock)
    && match how[f]
       case Unvisited => rows[f] == rows0[f] && ff[f] == ff0[f]
       case Root =>
         && rows[f] == rows0[f] && ff[f] == ff0[f]
         && (forall g :: 0 <= g < f ==> vis[g] && stamp[g] < stamp[f])
         && (forall g :: 0 <= g < |ff0| && f in ff0[g] && vis[g] && stamp[g] < stamp[f] ==> how[g].Skipped?)
       case Skipped(p) =>
         && Linked(ff0, ff, vis, how, stamp, f, p)
         && rows[f] == rows0[f] && |RowSet(rows[p]) * RowSet(rows0[f])| != 2
       case Checked(p, v1, v2) =>
         && Linked(ff0, ff, vis, how, stamp, f, p)
         && v1 != v2 && RowSet(rows[p]) * RowSet(rows0[f]) == {v1, v2}
         && rows[f] == Fix(rows[p], arity[p], rows0[f], arity[f], v1, v2)
  }

  /** The invariant of the flood. */
  ghost predicate Flooding(rows0: seq<Face>, ff0: seq<set<nat>>, arity: seq<nat>, rows: seq<Face>,
                           ff: seq<set<nat>>, vis: seq<bool>, how: seq<Visit>, stamp: seq<nat>, clock: nat,
                           stack: seq<nat>)
  {
    var n := |rows0|;
    && |ff0| == n && |arity| == n && |rows| == n && |ff| == n && |vis| == n && |how| == n && |stamp| == n
    && CellTypes(arity) && FaceMap(ff0, n)
    && (n >= 1 ==> how[0] == Root)
    && (forall f :: 0 <= f < n ==> Status(rows0, ff0, arity, rows, ff, vis, how, stamp, clock, f))
    && (forall k :: 0 <= k < |stack| ==> stack[k] < n && vis[stack[k]] && !how[stack[k]].Skipped?)
  }

  /**
   * Every reached face that pushes its neighbours and still has a neighbour not
   * reached is waiting in `open` (the stack, and the face being drained).
   */
  ghost predicate Drained(ff0: seq<set<nat>>, vis: seq<bool>, how: seq<Visit>, open: seq<nat>)
    requires |vis| == |how| == |ff0|
  {
    forall f, g :: 0 <= f < |ff0| && 0 <= g < |ff0| && g in ff0[f] && vis[f] && !vis[g] && !how[f].Skipped? ==> f in open
  }

  /** Reaching `iadj` keeps `Drained` when the face is skipped or pushed. */
  lemma DrainedMark(ff0: seq<set<nat>>, vis: seq<bool>, how: seq<Visit>, stack: seq<nat>, iface: nat, iadj: nat,
                    v: Visit, pushed: bool)
    requires |vis| == |how| == |ff0| && iadj < |vis|
    requires Drained(ff0, vis, how, stack + [iface])
    requires pushed || v.Skipped?
    ensures Drained(ff0, vis[iadj := true], how[iadj := v], (if pushed then stack + [iadj] else stack) + [iface])
  {
    var vis', how', open := vis[iadj := true], how[iadj := v], (if pushed then stack + [iadj] else stack) + [iface];
    forall f, g | 0 <= f < |ff0| && 0 <= g < |ff0| && g in ff0[f] && vis'[f] && !vis'[g] && !how'[f].Skipped?
      ensures f in open
    {
      if f != iadj {
        assert f in stack + [iface];
      }
    }
  }

  /** Number of faces not yet reached. */
  function Unreached(vis: seq<bool>): (c: nat)
    ensures c <= |vis|
  {
    if |vis| == 0 then 0 else Unreached(vis[..|vis| - 1]) + (if vis[|vis| - 1] then 0 else 1)
  }

  /** Marking an unreached face reached lowers the count by one. */
  lemma {:induction false} UnreachedMark(vis: seq<bool>, i: nat)
    requires i < |vis| && !vis[i]
    ensures Unreached(vis[i := true]) == Unreached(vis) - 1
  {
    var n := |vis| - 1;
    if i < n {
      assert vis[i := true][..n] == vis[..n][i := true];
      UnreachedMark(vis[..n], i);
    } else {
      assert vis[i := true][..n] == vis[..n];
    }
  }

  /**
   * Reaching the single face `i` changes nothing the status of any other face depends
   * on: visited faces keep their rows, maps, visits and stamps.
   */
  lemma OthersKeepStatus(rows0: seq<Face>, ff0: seq<set<nat>>, arity: seq<nat>,
                         rows: seq<Face>, ff: seq<set<nat>>, vis: seq<bool>, how: seq<Visit>, stamp: seq<nat>, clock: nat,
                         rows': seq<Face>, ff': seq<set<nat>>, vis': seq<bool>, how': seq<Visit>, stamp': seq<nat>,
                         clock': nat, i: nat)
    requires Flooding(rows0, ff0, arity, rows, ff, vis, how, stamp, clock, [])
    requires |rows'| == |ff'| == |vis'| == |how'| == |stamp'| == |rows0| && i < |rows0| && !vis[i] && vis'[i]
    requires forall g :: 0 <= g < |rows0| && g != i ==>
      rows'[g] == rows[g] && ff'[g] == ff[g] && vis'[g] == vis[g] && how'[g] == how[g] && stamp'[g] == stamp[g]
    requires clock <= clock' && clock <= stamp'[i]
    ensures forall f :: 0 <= f < |rows0| && f != i ==> Status(rows0, ff0, arity, rows', ff', vis', how', stamp', clock', f)
  {
    forall f | 0 <= f < |rows0| && f != i ensures Status(rows0, ff0, arity, rows', ff', vis', how', stamp', clock', f) {
      assert Status(rows0, ff0, arity, rows, ff, vis, how, stamp, clock, f);
    }
  }

  /** A face reached now from `iface` through a number of shared vertices other than two. */
  lemma SkipStep(rows0: seq<Face>, ff0: seq<set<nat>>, arity: seq<nat>, rows: seq<Face>,
                 ff: seq<set<nat>>, vis: seq<bool>, how: seq<Visit>, stamp: seq<nat>, clock: nat,
                 stack: seq<nat>, iface: nat, iadj: nat)
    requires Flooding(rows0, ff0, arity, rows, ff, vis, how, stamp, clock, stack)
    requires iface < |rows0| && vis[iface] && !how[iface].Skipped? && iadj in ff0[iface] && !vis[iadj]
    requires iface in ff[iadj] && |RowSet(rows[iface]) * RowSet(rows[iadj])| != 2
    ensures Flooding(rows0, ff0, arity, rows, ff[iadj := ff[iadj] - {iface}], vis[iadj := true],
                     how[iadj := Skipped(iface)], stamp[iadj := clock], clock + 1, stack)
  {
    var ff', vis', how', stamp', clock' := ff[iadj := ff[iadj] - {iface}], vis[iadj := true], how[iadj := Skipped(iface)], stamp[iadj := clock], clock + 1;
    assert Flooding(rows0, ff0, arity, rows, ff, vis, how, stamp, clock, []);
    OthersKeepStatus(rows0, ff0, arity, rows, ff, vis, how, stamp, clock, rows, ff', vis', how', stamp', clock', iadj);
    assert Status(rows0, ff0, arity, rows, ff, vis, how, stamp, clock, iadj);
    assert Status(rows0, ff0, arity, rows, ff, vis, how, stamp, clock, iface);
    assert Status(rows0, ff0, arity, rows, ff', vis', how', stamp', clock', iadj);
  }

  /** A face reached now from `iface` through the two shared vertices `v1`, `v2`, its row fixed and pushed. */
  lemma CheckStep(rows0: seq<Face>, ff0: seq<set<nat>>, arity: seq<nat>, rows: seq<Face>,
                  ff: seq<set<nat>>, vis: seq<bool>, how: seq<Visit>, stamp: seq<nat>, clock: nat,
                  stack: seq<nat>, iface: nat, iadj: nat, v1: nat, v2: nat)
    requires Flooding(rows0, ff0, arity, rows, ff, vis, how, stamp, clock, stack)
    requires iface < |rows0| && vis[iface] && !how[iface].Skipped? && iadj in ff0[iface] && !vis[iadj]
    requires iface in ff[iadj] && v1 != v2 && RowSet(rows[iface]) * RowSet(rows[iadj]) == {v1, v2}
    ensures v1 in RowSet(rows[iface]) && v1 in RowSet(rows[iadj])
    ensures Flooding(rows0, ff0, arity,
                     rows[iadj := Fix(rows[iface], arity[iface], rows[iadj], arity[iadj], v1, v2)],
                     ff[iadj := ff[iadj] - {iface}], vis[iadj := true],
                     how[iadj := Checked(iface, v1, v2)], stamp[iadj := clock], clock + 1, stack + [iadj])
  {
    assert v1 in RowSet(rows[iface]) * RowSet(rows[iadj]);
    var rows' := rows[iadj := Fix(rows[iface], arity[iface], rows[iadj], arity[iadj], v1, v2)];
    var ff', vis', how', stamp', clock' := ff[iadj := ff[iadj] - {iface}], vis[iadj := true], how[iadj := Checked(iface, v1, v2)], stamp[iadj := clock], clock + 1;
    assert Flooding(rows0, ff0, arity, rows, ff, vis, how, stamp, clock, []);
    OthersKeepStatus(rows0, ff0, arity, rows, ff, vis, how, stamp, clock, rows', ff', vis', how', stamp', clock', iadj);
    assert Status(rows0, ff0, arity, rows, ff, vis, how, stamp, clock, iadj);
    assert Status(rows0, ff0, arity, rows, ff, vis, how, stamp, clock, iface);
    assert Status(rows0, ff0, arity, rows', ff', vis', how', stamp', clock', iadj);
  }

  /** Starting the flood again at the lowest face not yet reached. */
  lemma RootStep(rows0: seq<Face>, ff0: seq<set<nat>>, arity: seq<nat>, rows: seq<Face>,
                 ff: seq<set<nat>>, vis: seq<bool>, how: seq<Visit>, stamp: seq<nat>, clock: nat, iface: nat)
    requires Flooding(rows0, ff0, arity, rows, ff, vis, how, stamp, clock, [])
    requires iface < |rows0| && !vis[iface] && forall g :: 0 <= g < iface ==> vis[g]
    requires Drained(ff0, vis, how, [])
    ensures Flooding(rows0, ff0, arity, rows, ff, vis[iface := true], how[iface := Root],
                     stamp[iface := clock], clock + 1, [iface])
    ensures Drained(ff0, vis[iface := true], how[iface := Root], [iface])
  {
    var vis', how', stamp', clock' := vis[iface := true], how[iface := Root], stamp[iface := clock], clock + 1;
    OthersKeepStatus(rows0, ff0, arity, rows, ff, vis, how, stamp, clock, rows, ff, vis', how', stamp', clock', iface);
    assert Status(rows0, ff0, arity, rows, ff, vis, how, stamp, clock, iface);
    forall g | 0 <= g < iface ensures vis'[g] && stamp'[g] < clock {
      assert Status(rows0, ff0, arity, rows, ff, vis, how, stamp, clock, g);
    }
    forall g | 0 <= g < |ff0| && iface in ff0[g] && vis'[g] && stamp'[g] < stamp'[iface] ensures how'[g].Skipped? {
      assert g != iface;
    }
    assert Status(rows0, ff0, arity, rows, ff, vis', how', stamp', clock', iface);
  }

  /** Popping a face off the stack keeps the invariant. */
  lemma PopStep(rows0: seq<Face>, ff0: seq<set<nat>>, arity: seq<nat>, rows: seq<Face>,
                ff: seq<set<nat>>, vis: seq<bool>, how: seq<Visit>, stamp: seq<nat>, clock: nat, stack: seq<nat>)
    requires Flooding(rows0, ff0, arity, rows, ff, vis, how, stamp, clock, stack) && |stack| >= 1
    ensures Flooding(rows0, ff0, arity, rows, ff, vis, how, stamp, clock, stack[..|stack| - 1])
    ensures var iface := stack[|stack| - 1];
      && iface < |rows0| && vis[iface] && !how[iface].Skipped? && ff[iface] <= ff0[iface]
      && forall g :: g in ff0[iface] && g < |vis| && !vis[g] ==> g in ff[iface]
  {
    var iface := stack[|stack| - 1];
    assert Status(rows0, ff0, arity, rows, ff, vis, how, stamp, clock, iface);
  }

  /**
   * With a symmetric face/faces map the pointer `f_f[iadj].remove(iface)` deletes is
   * always there: a face not yet reached still has all its neighbours.
   */
  lemma SymmetricHasBackPointer(rows0: seq<Face>, ff0: seq<set<nat>>, arity: seq<nat>, rows: seq<Face>,
                                ff: seq<set<nat>>, vis: seq<bool>, how: seq<Visit>, stamp: seq<nat>, clock: nat,
                                stack: seq<nat>, iface: nat, iadj: nat)
    requires Flooding(rows0, ff0, arity, rows, ff, vis, how, stamp, clock, stack) && Symmetric(ff0)
    requires iface < |rows0| && iadj in ff0[iface] && !vis[iadj]
    ensures iface in ff[iadj]
  {
    assert Status(rows0, ff0, arity, rows, ff, vis, how, stamp, clock, iadj);
  }

  /** The first face not yet reached (`np.where(np.logical_not(f_vis))[0][0]`). */
  function LowestUnreached(vis: seq<bool>): (i: nat)
    requires false in vis
    ensures i < |vis| && !vis[i] && forall g :: 0 <= g < i ==> vis[g]
  {
    var idx := Where(Negate(vis));
    var k :| 0 <= k < |vis| && vis[k] == false;
    assert k in idx;
    var i := idx[0];
    i
  }

  /** With nothing reached every face is unreached. */
  lemma {:induction false} UnreachedNone(n: nat)
    ensures Unreached(seq(n, f => false)) == n
  {
    if n > 0 {
      assert seq(n, f => false)[..n - 1] == seq(n - 1, f => false);
      UnreachedNone(n - 1);
    }
  }

  /** With every face reached none is unreached. */
  lemma {:induction false} UnreachedAll(vis: seq<bool>)
    requires false !in vis
    ensures Unreached(vis) == 0
  {
    if |vis| > 0 {
      assert false !in vis[..|vis| - 1];
      UnreachedAll(vis[..|vis| - 1]);
    }
  }

  /**
   * The body of `for iadj_f in f_f[iface]`: a face already reached is passed over;
   * otherwise it is marked reached, loses `iface` from its neighbours (the
   * `KeyError` when `iface` is missing), and is skipped, or fixed against `iface`
   * and pushed.
   */
  method Reach(faces: array<Face>, arity: seq<nat>, ghost rows0: seq<Face>, ghost ff0: seq<set<nat>>,
               ff: seq<set<nat>>, vis: seq<bool>, stack: seq<nat>, iface: nat, iadj: nat,
               ghost how: seq<Visit>, ghost stamp: seq<nat>, ghost clock: nat)
      returns (ok: bool, ff': seq<set<nat>>, vis': seq<bool>, stack': seq<nat>,
               ghost how': seq<Visit>, ghost stamp': seq<nat>, ghost clock': nat)
    requires Flooding(rows0, ff0, arity, faces[..], ff, vis, how, stamp, clock, stack)
    requires iface < |rows0| && vis[iface] && !how[iface].Skipped? && iadj in ff0[iface]
    requires Drained(ff0, vis, how, stack + [iface])
    modifies faces
    ensures Symmetric(ff0) ==> ok
    ensures !ok ==> faces[..] == old(faces[..]) && ff' == ff && vis' == vis && stack' == stack && how' == how &&
                    stamp' == stamp && clock' == clock
    ensures |vis'| == |vis| && |how'| == |how| && forall f :: 0 <= f < |how| && vis[f] ==> vis'[f] && how'[f] == how[f]
    ensures ok ==> vis'[iadj]
    ensures Drained(ff0, vis', how', stack' + [iface])
    ensures Flooding(rows0, ff0, arity, faces[..], ff', vis', how', stamp', clock', stack')
    ensures clock' + Unreached(vis') == clock + Unreached(vis)
    ensures Unreached(vis') < Unreached(vis) || (vis' == vis && stack' == stack)
  {
    ok, ff', vis', stack', how', stamp', clock' := true, ff, vis, stack, how, stamp, clock;
    if vis[iadj] {
      return;
    }
    if Symmetric(ff0) {
      SymmetricHasBackPointer(rows0, ff0, arity, faces[..], ff, vis, how, stamp, clock, stack, iface, iadj);
    }
    if iface !in ff[iadj] {
      ok := false;
      return;
    }
    UnreachedMark(vis, iadj);
    var common := RowSet(faces[iface]) * RowSet(faces[iadj]);
    if |common| != 2 {
      SkipStep(rows0, ff0, arity, faces[..], ff, vis, how, stamp, clock, stack, iface, iadj);
      DrainedMark(ff0, vis, how, stack, iface, iadj, Skipped(iface), false);
      ff', vis' := ff[iadj := ff[iadj] - {iface}], vis[iadj := true];
      how', stamp', clock' := how[iadj := Skipped(iface)], stamp[iadj := clock], clock + 1;
      return;
    }
    var v1 :| v1 in common;
    assert |common - {v1}| == 1;
    var v2 :| v2 in common - {v1};
    assert common == {v1, v2} by {
      assert |common - {v1, v2}| == 0;
    }
    CheckStep(rows0, ff0, arity, faces[..], ff, vis, how, stamp, clock, stack, iface, iadj, v1, v2);
    DrainedMark(ff0, vis, how, stack, iface, iadj, Checked(iface, v1, v2), true);
    ghost var rows := faces[..];
    if NeedsFlip(faces[iface], arity[iface], faces[iadj], arity[iadj], v1, v2) {
      faces[iadj] := Reverse(faces[iadj]);
    }
    assert faces[..] == rows[iadj := Fix(rows[iface], arity[iface], rows[iadj], arity[iadj], v1, v2)];
    ff', vis' := ff[iadj := ff[iadj] - {iface}], vis[iadj := true];
    how', stamp', clock' := how[iadj := Checked(iface, v1, v2)], stamp[iadj := clock], clock + 1;
    stack' := stack + [iadj];
  }

  /** Under the flood invariant every row is its old row or its reversal. */
  lemma RowsReversedAtMostOnce(rows0: seq<Face>, ff0: seq<set<nat>>, arity: seq<nat>, rows: seq<Face>,
                               ff: seq<set<nat>>, vis: seq<bool>, how: seq<Visit>, stamp: seq<nat>, clock: nat,
                               stack: seq<nat>)
    requires Flooding(rows0, ff0, arity, rows, ff, vis, how, stamp, clock, stack)
    ensures forall f :: 0 <= f < |rows0| ==> rows[f] == rows0[f] || rows[f] == Reverse(rows0[f])
    ensures forall f :: 0 <= f < |rows0| ==> (vis[f] <==> !how[f].Unvisited?)
  {
    forall f | 0 <= f < |rows0|
      ensures rows[f] == rows0[f] || rows[f] == Reverse(rows0[f])
      ensures vis[f] <==> !how[f].Unvisited?
    {
      assert Status(rows0, ff0, arity, rows, ff, vis, how, stamp, clock, f);
    }
  }

  /** The state before the first pop: only face 0 reached, as a root, and on the stack. */
  lemma Started(rows0: seq<Face>, ff0: seq<set<nat>>, arity: seq<nat>)
    requires |rows0| >= 1 && |arity| == |rows0| && CellTypes(arity) && FaceMap(ff0, |rows0|)
    ensures var n := |rows0|;
      && Flooding(rows0, ff0, arity, rows0, ff0, seq(n, f => f == 0), seq(n, f => if f == 0 then Root else Unvisited),
                  seq(n, f => 0), 1, [0])
      && 1 + Unreached(seq(n, f => f == 0)) == n
      && Drained(ff0, seq(n, f => f == 0), seq(n, f => if f == 0 then Root else Unvisited), [0])
  {
    var n := |rows0|;
    var vis := seq(n, f => f == 0);
    assert vis == seq(n, f => false)[0 := true];
    UnreachedNone(n);
    UnreachedMark(seq(n, f => false), 0);
    var how := seq(n, f => if f == 0 then Root else Unvisited);
    var stamp := seq(n, f => 0);
    forall f | 0 <= f < n ensures Status(rows0, ff0, arity, rows0, ff0, vis, how, stamp, 1, f) {
    }
  }

  /** The loop `for iadj_f in f_f[iface]` over the neighbours `todo` of the popped face `iface`. */
  method Drain(faces: array<Face>, arity: seq<nat>, ghost rows0: seq<Face>, ghost ff0: seq<set<nat>>,
               ff: seq<set<nat>>, vis: seq<bool>, stack: seq<nat>, iface: nat, todo: set<nat>,
               ghost how: seq<Visit>, ghost stamp: seq<nat>, ghost clock: nat)
      returns (ok: bool, ff': seq<set<nat>>, vis': seq<bool>, stack': seq<nat>,
               ghost how': seq<Visit>, ghost stamp': seq<nat>, ghost clock': nat)
    requires Flooding(rows0, ff0, arity, faces[..], ff, vis, how, stamp, clock, stack)
    requires iface < |rows0| && vis[iface] && !how[iface].Skipped? && todo <= ff0[iface]
    requires forall g :: g in ff0[iface] && g < |vis| && !vis[g] ==> g in todo
    requires Drained(ff0, vis, how, stack + [iface])
    modifies faces
    ensures Symmetric(ff0) ==> ok
    ensures Flooding(rows0, ff0, arity, faces[..], ff', vis', how', stamp', clock', stack')
    ensures clock' + Unreached(vis') == clock + Unreached(vis)
    ensures Unreached(vis') < Unreached(vis) || (vis' == vis && stack' == stack)
    ensures ok ==> Drained(ff0, vis', how', stack')
  {
    ok, ff', vis', stack', how', stamp', clock' := true, ff, vis, stack, how, stamp, clock;
    var rest := todo;
    while rest != {}
      invariant Flooding(rows0, ff0, arity, faces[..], ff', vis', how', stamp', clock', stack')
      invariant clock' + Unreached(vis') == clock + Unreached(vis)
      invariant rest <= ff0[iface] && vis'[iface] && !how'[iface].Skipped?
      invariant Unreached(vis') < Unreached(vis) || (vis' == vis && stack' == stack)
      invariant Symmetric(ff0) ==> ok
      invariant Drained(ff0, vis', how', stack' + [iface])
      invariant forall g :: g in ff0[iface] && g < |vis'| && !vis'[g] ==> g in rest
      decreases |rest|
    {
      var iadj :| iadj in rest;
      rest := rest - {iadj};
      ok, ff', vis', stack', how', stamp', clock' := Reach(faces, arity, rows0, ff0, ff', vis', stack', iface, iadj, how', stamp', clock');
      if !ok {
        return;
      }
    }
    forall f, g | 0 <= f < |ff0| && 0 <= g < |ff0| && g in ff0[f] && vis'[f] && !vis'[g] && !how'[f].Skipped?
      ensures f in stack'
    {
      assert f in stack' + [iface];
    }
  }

  /**
   * One turn of the `while True` loop: with an empty stack the lowest unreached face
   * becomes a new root; then a face is popped and its neighbours are drained.
   */
  method Round(faces: array<Face>, arity: seq<nat>, ghost rows0: seq<Face>, ghost ff0: seq<set<nat>>,
               ff: seq<set<nat>>, vis: seq<bool>, stack: seq<nat>,
               ghost how: seq<Visit>, ghost stamp: seq<nat>, ghost clock: nat)
      returns (ok: bool, ff': seq<set<nat>>, vis': seq<bool>, stack': seq<nat>,
               ghost how': seq<Visit>, ghost stamp': seq<nat>, ghost clock': nat)
    requires Flooding(rows0, ff0, arity, faces[..], ff, vis, how, stamp, clock, stack)
    requires |stack| > 0 || false in vis
    requires Drained(ff0, vis, how, stack)
    modifies faces
    ensures Symmetric(ff0) ==> ok
    ensures Flooding(rows0, ff0, arity, faces[..], ff', vis', how', stamp', clock', stack')
    ensures clock' + Unreached(vis') == clock + Unreached(vis)
    ensures Unreached(vis') < Unreached(vis) || (Unreached(vis') == Unreached(vis) && |stack'| < |stack|)
    ensures ok ==> Drained(ff0, vis', how', stack')
  {
    ff', vis', stack', how', stamp', clock' := ff, vis, stack, how, stamp, clock;
    if |stack| == 0 {
      var iface := LowestUnreached(vis);
      RootStep(rows0, ff0, arity, faces[..], ff, vis, how, stamp, clock, iface);
      UnreachedMark(vis, iface);
      stack' := [iface];
      vis', how', stamp', clock' := vis[iface := true], how[iface := Root], stamp[iface := clock], clock + 1;
    }
    PopStep(rows0, ff0, arity, faces[..], ff', vis', how', stamp', clock', stack');
    var iface := stack'[|stack'| - 1];
    assert stack'[..|stack'| - 1] + [iface] == stack';
    stack' := stack'[..|stack'| - 1];
    ok, ff', vis', stack', how', stamp', clock' := Drain(faces, arity, rows0, ff0, ff', vis', stack', iface, ff'[iface], how', stamp', clock');
  }

  /**
   * The flood of `heal_normals` on the rows `faces`, read with the cell types
   * `arity`, over the face/faces map `ff`.  It fails only on the `KeyError` of
   * `f_f[iadj].remove(iface)`, which a symmetric map never raises.  Each row is
   * changed at most once and only by reversal.  On success every face has been
   * reached (`how`), and the state satisfies `Flooding` with every face reached and
   * an empty stack: face 0 and every restart are roots reached after every lower
   * face (`stamp`), roots and faces skipped for not sharing exactly two vertices
   * keep their rows, every other face holds its old row fixed against its parent's
   * final row, and every face reached from a neighbour lost that neighbour from its
   * `f_f` set.
   */
  method Heal(faces: array<Face>, arity: seq<nat>, ff: seq<set<nat>>)
      returns (ok: bool, ff': seq<set<nat>>, ghost how: seq<Visit>, ghost stamp: seq<nat>)
    requires faces.Length >= 1 && |arity| == faces.Length && CellTypes(arity) && FaceMap(ff, faces.Length)
    modifies faces
    ensures Symmetric(ff) ==> ok
    ensures |ff'| == faces.Length
    ensures forall f :: 0 <= f < faces.Length ==> faces[f] == old(faces[f]) || faces[f] == Reverse(old(faces[f]))
    ensures ok ==> Flooding(old(faces[..]), ff, arity, faces[..], ff', seq(faces.Length, f => true), how, stamp,
                            faces.Length, [])
    ensures ok ==> how[0] == Root && forall f :: 0 <= f < faces.Length ==> !how[f].Unvisited?
  {
    ghost var rows0 := faces[..];
    var n := faces.Length;
    var vis := seq(n, f => f == 0);
    ff' := ff;
    how := seq(n, f => if f == 0 then Root else Unvisited);
    stamp := seq(n, f => 0);
    ghost var clock: nat := 1;
    Started(rows0, ff, arity);
    var stack := [0];
    while |stack| > 0 || false in vis
      invariant Flooding(rows0, ff, arity, faces[..], ff', vis, how, stamp, clock, stack)
      invariant clock + Unreached(vis) == n
      invariant Drained(ff, vis, how, stack)
      decreases Unreached(vis), |stack|
    {
      ok, ff', vis, stack, how, stamp, clock := Round(faces, arity, rows0, ff, ff', vis, stack, how, stamp, clock);
      if !ok {
        RowsReversedAtMostOnce(rows0, ff, arity, faces[..], ff', vis, how, stamp, clock, stack);
        return;
      }
    }
    UnreachedAll(vis);
    assert vis == seq(n, f => true) by {
      forall f | 0 <= f < n ensures vis[f] {
        assert vis[f] in vis;
      }
    }
    RowsReversedAtMostOnce(rows0, ff, arity, faces[..], ff', vis, how, stamp, clock, stack);
    ok := true;
  }

  /** The flood only removes neighbours: every set of the pruned map is part of the original one. */
  lemma PrunedIsFaceMap(rows0: seq<Face>, ff0: seq<set<nat>>, arity: seq<nat>, rows: seq<Face>,
                        ff: seq<set<nat>>, vis: seq<bool>, how: seq<Visit>, stamp: seq<nat>, clock: nat, stack: seq<nat>)
    requires Flooding(rows0, ff0, arity, rows, ff, vis, how, stamp, clock, stack)
    ensures forall f :: 0 <= f < |rows0| ==> ff[f] <= ff0[f]
    ensures FaceMap(ff, |rows0|)
  {
    forall f | 0 <= f < |rows0| ensures ff[f] <= ff0[f] {
      assert Status(rows0, ff0, arity, rows, ff, vis, how, stamp, clock, f);
    }
  }

  /**
   * `heal_normals` stores the map its flood pruned (`self._faces = faces` bypasses the
   * setter, so the cache survives).  For two faces that are each other's only
   * neighbour, a first successful flood leaves `[{1}, {}]`, and no flood over that
   * map can succeed: a second `heal_normals` raises `KeyError`.
   */
  lemma PrunedMapRaises(rows0: seq<Face>, arity: seq<nat>, rows1: seq<Face>, ff1: seq<set<nat>>,
                        how1: seq<Visit>, stamp1: seq<nat>, clock1: nat,
                        rows2: seq<Face>, ff2: seq<set<nat>>, how2: seq<Visit>, stamp2: seq<nat>, clock2: nat)
    requires |rows0| == 2
    requires Flooding(rows0, [{1}, {0}], arity, rows1, ff1, seq(2, f => true), how1, stamp1, clock1, [])
    ensures ff1 == [{1}, {}]
    ensures !Flooding(rows1, ff1, arity, rows2, ff2, seq(2, f => true), how2, stamp2, clock2, [])
  {
    var ff0: seq<set<nat>> := [{1}, {0}];
    var vis := seq(2, f => true);
    assert Status(rows0, ff0, arity, rows1, ff1, vis, how1, stamp1, clock1, 0);
    assert Status(rows0, ff0, arity, rows1, ff1, vis, how1, stamp1, clock1, 1);
    assert ff1[0] == {1} && ff1[1] == {};
    if Flooding(rows1, ff1, arity, rows2, ff2, vis, how2, stamp2, clock2, []) {
      var status1 := Status(rows1, ff1, arity, rows2, ff2, vis, how2, stamp2, clock2, 1);
      assert false;
    }
  }
}
