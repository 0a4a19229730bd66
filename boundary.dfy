/**
 * The boundary-loop walk at the end of `Mesh._connectivity`.
 *
 * The directed boundary edges form a map keyed by origin vertex.  An arbitrary
 * edge is popped (`popitem`), then the edge leaving the current end vertex is
 * popped for as long as there is one.  A chain whose last vertex equals its first
 * becomes a boundary loop; any other chain is reported and dropped.
 */
module Boundary {

  /** Distinct origins lead to distinct targets. */
  ghost predicate Injective(m: map<nat, nat>) {
    forall a, b {:trigger Target(m, a), Target(m, b)} :: a in m && b in m && a != b ==> Target(m, a) != Target(m, b)
  }

  /**
   * Every target is itself an origin and no two origins share a target.  On a finite
   * map this makes the edges disjoint cycles.
   */
  ghost predicate Permutation(m: map<nat, nat>) {
    Injective(m) && forall k {:trigger Target(m, k)} :: k in m ==> Target(m, k) in m
  }

  /** The end vertex of the edge leaving `k`. */
  function Target(m: map<nat, nat>, k: nat): nat
    requires k in m
  {
    m[k]
  }

  /** `sub` keeps some edges of `m`, unchanged. */
  ghost predicate SubMap(sub: map<nat, nat>, m: map<nat, nat>) {
    && (forall k :: k in sub ==> k in m)
    && (forall k {:trigger sub[k]} :: k in sub ==> sub[k] == m[k])
  }

  /** Consecutive vertices of `b` are joined by edges of `m`. */
  ghost predicate Chain(b: seq<nat>, m: map<nat, nat>) {
    && (forall p :: 0 <= p < |b| - 1 ==> b[p] in m)
    && (forall p {:trigger Target(m, b[p])} :: 0 <= p < |b| - 1 ==> b[p] in m && Target(m, b[p]) == b[p + 1])
  }

  /** A returned loop: at least one edge, edges of `m`, back at its start. */
  ghost predicate Loop(b: seq<nat>, m: map<nat, nat>) {
    |b| >= 2 && b[0] == b[|b| - 1] && Chain(b, m)
  }

  /** `x` is the origin of an edge used by one of the loops. */
  ghost predicate IsOrigin(loops: seq<seq<nat>>, x: nat) {
    exists l, p :: 0 <= l < |loops| && 0 <= p < |loops[l]| - 1 && loops[l][p] == x
  }

  /** No edge is used twice: the origins of all edges of all loops are pairwise distinct. */
  ghost predicate EdgesUsedOnce(loops: seq<seq<nat>>) {
    forall l1, p1, l2, p2 ::
      (0 <= l1 < |loops| && 0 <= p1 < |loops[l1]| - 1 && 0 <= l2 < |loops| && 0 <= p2 < |loops[l2]| - 1
       && (l1 != l2 || p1 != p2))
      ==> loops[l1][p1] != loops[l2][p2]
  }

  /** The origins of `b`'s edges are pairwise distinct. */
  ghost predicate DistinctOrigins(b: seq<nat>) {
    forall p, q :: 0 <= p < q < |b| - 1 ==> b[p] != b[q]
  }

  /** The origins of the edges of `b`. */
  function Origins(b: seq<nat>): (r: set<nat>)
    requires |b| >= 1
    ensures forall x :: x in r <==> x in b[..|b| - 1]
  {
    var r := set p | 0 <= p < |b| - 1 :: b[p];
    assert forall x :: x in b[..|b| - 1] ==> x in r;
    r
  }

  /** Some edge whose origin is in `used` ends at `x`. */
  ghost predicate HasPredecessor(edges: map<nat, nat>, used: set<nat>, x: nat) {
    exists q :: q in used && q in edges && Target(edges, q) == x
  }

  /** Every vertex of `used` is reached by an edge whose origin is in `used`. */
  ghost predicate ClosedUnderPredecessor(edges: map<nat, nat>, used: set<nat>) {
    forall x {:trigger HasPredecessor(edges, used, x)} :: x in used ==> HasPredecessor(edges, used, x)
  }

  /** The origins of a closed loop are closed under predecessor. */
  lemma LoopClosed(b: seq<nat>, edges: map<nat, nat>)
    requires Loop(b, edges)
    ensures ClosedUnderPredecessor(edges, Origins(b))
  {
    forall x | x in Origins(b) ensures HasPredecessor(edges, Origins(b), x) {
      var p :| 0 <= p < |b| - 1 && b[p] == x;
      var q := if p > 0 then p - 1 else |b| - 2;
      assert b[..|b| - 1][q] == b[q];
      assert Target(edges, b[q]) == b[q + 1];
    }
  }

  /** Two sets closed under predecessor have a union closed under predecessor. */
  lemma UnionClosed(edges: map<nat, nat>, a: set<nat>, b: set<nat>)
    requires ClosedUnderPredecessor(edges, a) && ClosedUnderPredecessor(edges, b)
    ensures ClosedUnderPredecessor(edges, a + b)
  {
    forall x | x in a + b ensures HasPredecessor(edges, a + b, x) {
      if x in a {
        assert HasPredecessor(edges, a, x);
      } else {
        assert HasPredecessor(edges, b, x);
      }
    }
  }

  /**
   * While a chain started at `o` is being followed, every vertex other than `o`
   * that is the current end `cur`, an origin of the chain or in `used` is the target
   * of an edge whose origin is in `used` or in the chain.
   */
  lemma UsedPredecessor(edges: map<nat, nat>, used: set<nat>, boundary: seq<nat>, o: nat, cur: nat, x: nat)
    requires ClosedUnderPredecessor(edges, used)
    requires |boundary| >= 1 && boundary[0] == o && boundary[|boundary| - 1] == cur && Chain(boundary, edges)
    requires x != o && (x == cur || x in used || x in boundary[..|boundary| - 1])
    ensures exists q :: q in edges && (q in used || q in boundary[..|boundary| - 1]) && Target(edges, q) == x
  {
    if x in used {
      assert HasPredecessor(edges, used, x);
    } else {
      var p :| 0 < p < |boundary| && boundary[p] == x;
      var q := boundary[p - 1];
      assert boundary[..|boundary| - 1][p - 1] == q;
      assert Target(edges, q) == x;
    }
  }

  /**
   * On a permutation, the edge leaving a vertex `cur` that is still available leads
   * to a vertex that is still available, or back to the start `o` of the chain.
   */
  lemma NextIsAvailable(edges: map<nat, nat>, e: map<nat, nat>, used: set<nat>,
                        boundary: seq<nat>, o: nat, cur: nat)
    requires Permutation(edges) && SubMap(e, edges)
    requires ClosedUnderPredecessor(edges, used) && forall x :: x in used ==> x !in e
    requires |boundary| >= 1 && boundary[0] == o && boundary[|boundary| - 1] == cur && Chain(boundary, edges)
    requires forall x :: x in boundary[..|boundary| - 1] ==> x !in e
    requires forall k :: k in edges ==> k in e || k in used || k in boundary[..|boundary| - 1]
    requires cur in e && (|boundary| == 1 || o !in e)
    ensures e[cur] in e - {cur} || e[cur] == o
  {
    var next := e[cur];
    assert Target(edges, cur) == next;
    if next !in e - {cur} && next != o {
      UsedPredecessor(edges, used, boundary, o, cur, next);
    }
  }

  /** Appending a chain to the loops adds exactly its origins. */
  lemma AppendOrigins(loops: seq<seq<nat>>, b: seq<nat>, x: nat)
    requires |b| >= 1
    ensures IsOrigin(loops + [b], x) <==> IsOrigin(loops, x) || x in b[..|b| - 1]
  {
    var ls := loops + [b];
    if IsOrigin(ls, x) {
      var l, p :| 0 <= l < |ls| && 0 <= p < |ls[l]| - 1 && ls[l][p] == x;
      if l == |loops| {
        assert b[..|b| - 1][p] == x;
      } else {
        assert loops[l][p] == x;
      }
    }
    if IsOrigin(loops, x) {
      var l, p :| 0 <= l < |loops| && 0 <= p < |loops[l]| - 1 && loops[l][p] == x;
      assert ls[l][p] == x;
    }
    if x in b[..|b| - 1] {
      var p :| 0 <= p < |b| - 1 && b[p] == x;
      assert ls[|loops|][p] == x;
    }
  }

  /** Appending a chain with fresh, distinct origins keeps every edge used at most once. */
  lemma AppendUsedOnce(loops: seq<seq<nat>>, b: seq<nat>)
    requires EdgesUsedOnce(loops) && |b| >= 1 && DistinctOrigins(b)
    requires forall x :: x in b[..|b| - 1] ==> !IsOrigin(loops, x)
    ensures EdgesUsedOnce(loops + [b])
  {
    var ls := loops + [b];
    forall l1, p1, l2, p2 |
      && 0 <= l1 < |ls| && 0 <= p1 < |ls[l1]| - 1 && 0 <= l2 < |ls| && 0 <= p2 < |ls[l2]| - 1
      && (l1 != l2 || p1 != p2)
      ensures ls[l1][p1] != ls[l2][p2]
    {
      if l1 < |loops| && l2 < |loops| {
        assert loops[l1][p1] != loops[l2][p2];
      } else if l1 < |loops| {
        assert IsOrigin(loops, loops[l1][p1]);
        assert b[..|b| - 1][p2] == b[p2];
      } else if l2 < |loops| {
        assert IsOrigin(loops, loops[l2][p2]);
        assert b[..|b| - 1][p1] == b[p1];
      }
    }
  }

  /** What holds while a chain started at `o` is being followed; `used` holds the origins already on loops. */
  ghost predicate Following(edges: map<nat, nat>, e0: map<nat, nat>, e: map<nat, nat>, used: set<nat>,
                            o: nat, boundary: seq<nat>)
  {
    && SubMap(e, edges) && |e| < |e0|
    && |boundary| >= 2 && boundary[0] == o
    && Chain(boundary, edges) && DistinctOrigins(boundary)
    && (forall x :: x in boundary[..|boundary| - 1] ==> x !in e && x !in used)
    && (forall x :: x in used ==> x !in e)
    && (Permutation(edges) ==> boundary[|boundary| - 1] in e || boundary[|boundary| - 1] == o)
    && (Permutation(edges) ==> forall k :: k in edges ==> k in e || k in used || k in boundary[..|boundary| - 1])
  }

  /** Popping the edge leaving `cur` extends the chain and keeps `Following`. */
  lemma FollowStep(edges: map<nat, nat>, e0: map<nat, nat>, e: map<nat, nat>, used: set<nat>,
                   o: nat, boundary: seq<nat>, cur: nat)
    requires ClosedUnderPredecessor(edges, used)
    requires Following(edges, e0, e, used, o, boundary) && cur == boundary[|boundary| - 1] && cur in e
    ensures Following(edges, e0, e - {cur}, used, o, boundary + [e[cur]])
  {
    if Permutation(edges) {
      NextIsAvailable(edges, e, used, boundary, o, cur);
    }
    var b := boundary + [e[cur]];
    assert b[..|b| - 1] == boundary;
    assert boundary[..|boundary| - 1] + [cur] == boundary;
  }

  /** Popping the first edge, the one leaving `o`, starts a chain in state `Following`. */
  lemma FollowStart(edges: map<nat, nat>, e0: map<nat, nat>, used: set<nat>, o: nat)
    requires SubMap(e0, edges) && o in e0
    requires ClosedUnderPredecessor(edges, used) && forall x :: x in used ==> x !in e0
    requires Permutation(edges) ==> forall k :: k in edges ==> k in e0 || k in used
    ensures Following(edges, e0, e0 - {o}, used, o, [o, e0[o]])
  {
    if Permutation(edges) {
      NextIsAvailable(edges, e0, used, [o], o, o);
    }
    assert [o, e0[o]][..1] == [o];
  }

  /**
   * One chain of the walk: the edge leaving `o` is popped, then the edge leaving the
   * current end vertex for as long as one remains.  The chain follows edges of the
   * input, uses each at most once and only edges still available; on a permutation
   * it closes at `o` and, with the origins `used` by earlier loops, accounts for
   * every edge.
   */
  method FollowChain(edges: map<nat, nat>, e0: map<nat, nat>, ghost used: set<nat>, o: nat)
    returns (boundary: seq<nat>, e: map<nat, nat>)
    requires SubMap(e0, edges) && o in e0
    requires ClosedUnderPredecessor(edges, used) && forall x :: x in used ==> x !in e0
    requires Permutation(edges) ==> forall k :: k in edges ==> k in e0 || k in used
    ensures Following(edges, e0, e, used, o, boundary)
    ensures Permutation(edges) ==> boundary[|boundary| - 1] == o
  {
    FollowStart(edges, e0, used, o);
    var cur := e0[o];
    boundary := [o, cur];
    e := e0 - {o};
    while cur in e
      invariant Following(edges, e0, e, used, o, boundary) && cur == boundary[|boundary| - 1]
      decreases |e|
    {
      FollowStep(edges, e0, e, used, o, boundary, cur);
      var next := e[cur];
      boundary := boundary + [next];
      e := e - {cur};
      cur := next;
    }
  }

  /**
   * The loop walk of `_connectivity`, `popitem` choosing any remaining edge.  It
   * terminates; every returned loop has at least one edge, runs along edges of the
   * input and ends where it starts; no edge is used twice; no edges give no loops.
   * When the edges form disjoint cycles (a permutation of their origins) no chain is
   * dropped and every edge lies on a returned loop.
   */
  method WalkBoundaries(edges: map<nat, nat>) returns (loops: seq<seq<nat>>)
    ensures forall l :: 0 <= l < |loops| ==> Loop(loops[l], edges)
    ensures EdgesUsedOnce(loops)
    ensures edges == map[] ==> loops == []
    ensures Permutation(edges) ==> forall o :: o in edges ==> IsOrigin(loops, o)
  {
    var e := edges;
    loops := [];
    ghost var used: set<nat> := {};
    while e != map[]
      invariant SubMap(e, edges)
      invariant forall l :: 0 <= l < |loops| ==> Loop(loops[l], edges)
      invariant EdgesUsedOnce(loops)
      invariant forall x :: x in used <==> IsOrigin(loops, x)
      invariant ClosedUnderPredecessor(edges, used)
      invariant forall x :: x in used ==> x !in e
      invariant edges == map[] ==> loops == []
      invariant Permutation(edges) ==> forall k :: k in edges ==> k in e || k in used
      decreases |e|
    {
      var o :| o in e;
      var boundary;
      boundary, e := FollowChain(edges, e, used, o);
      if boundary[0] == boundary[|boundary| - 1] {
        AppendUsedOnce(loops, boundary);
        forall x ensures IsOrigin(loops + [boundary], x) <==> IsOrigin(loops, x) || x in boundary[..|boundary| - 1] {
          AppendOrigins(loops, boundary, x);
        }
        LoopClosed(boundary, edges);
        UnionClosed(edges, used, Origins(boundary));
        loops := loops + [boundary];
        used := used + Origins(boundary);
      }
    }
  }
}
