/** The basis tree after an exchange seen as a graph on the instance's
    nodes: the rewired parent array still joins every node to an adjacent
    node, and its edges are the old ones with the leaving arc swapped for
    the entering arc. */
module Rewire {
  import opened FctpData
  import opened Trees
  import opened Reroot
  import opened Basis

  /** p is a tree over the instance's nodes whose every edge joins a
      supplier and a customer. */
  ghost predicate Bipartite(inst: Instance, p: seq<int>, r: seq<nat>) {
    && inst.m >= 1 && inst.n >= 1 && |p| == inst.m + inst.n && Ranked(p, r)
    && forall y :: 0 < y < |p| ==> Adjacent(inst, y, p[y])
  }

  /** An arc is a tree edge exactly when it joins some non-root node to its
      parent. */
  lemma EdgeNode(inst: Instance, p: seq<int>, r: seq<nat>, a: int)
    requires Bipartite(inst, p, r) && 0 <= a < inst.m * inst.n
    ensures TreeEdge(inst, p, a) <==> exists y :: 0 < y < |p| && EdgeArc(inst, p, y) == a
  {
    ArcRange(a, inst.m, inst.n);
    var t, h := Tail(inst, a), Head(inst, a);
    if p[h] == t {
      ArcBetweenUnique(inst, h, t, a);
      assert 0 < h < |p| && EdgeArc(inst, p, h) == a;
    }
    if p[t] == h {
      ArcBetweenUnique(inst, t, h, a);
      assert 0 < t < |p| && EdgeArc(inst, p, t) == a;
    }
    if y :| 0 < y < |p| && EdgeArc(inst, p, y) == a {
      ArcBetweenUnique(inst, y, p[y], a);
    }
  }

  /** Different non-root nodes have different parent arcs. */
  lemma EdgeDistinct(inst: Instance, p: seq<int>, r: seq<nat>, y: int, z: int)
    requires Bipartite(inst, p, r) && 0 < y < |p| && 0 < z < |p| && y != z
    ensures EdgeArc(inst, p, y) != EdgeArc(inst, p, z)
  {
    ArcBetweenEnds(inst, y, p[y]);
    ArcBetweenEnds(inst, z, p[z]);
  }

  /** The stem u = P[0], .., P[k] = q: none of its nodes is the root and
      each one's parent is the next. */
  lemma StemFacts(p: seq<int>, r: seq<nat>, u: int, v: int, k: int, t: int)
    requires Pivot(p, r, u, v, k) && 0 <= t <= k
    ensures k + 1 < |Path(p, r, u)|
    ensures 0 < Path(p, r, u)[t] < |p| && p[Path(p, r, u)[t]] == Path(p, r, u)[t + 1]
  {
    QNotRoot(p, r, u, v, k);
    PathShape(p, r, u);
  }

  /** An exchange on the tree: the pivot of Reroot whose new edge (u, v)
      joins a supplier and a customer. */
  ghost predicate Exchange(inst: Instance, p: seq<int>, r: seq<nat>, u: int, v: int, k: int, np: seq<int>) {
    && Bipartite(inst, p, r) && Pivot(p, r, u, v, k) && Rewired(p, r, u, v, k, np)
    && Adjacent(inst, u, v)
  }

  /** Every parent arc of the new tree is the entering arc or an old tree
      arc other than the leaving one. */
  lemma NewEdgeIsOld(inst: Instance, p: seq<int>, r: seq<nat>, u: int, v: int, k: int, np: seq<int>, y: int)
    requires Exchange(inst, p, r, u, v, k, np) && 0 < y < |np|
    ensures Adjacent(inst, y, np[y])
    ensures EdgeArc(inst, np, y) == ArcBetween(inst, u, v)
      || exists z :: 0 < z < |p| && z != Path(p, r, u)[k] && EdgeArc(inst, p, z) == EdgeArc(inst, np, y)
  {
    var P := Path(p, r, u);
    StemFacts(p, r, u, v, k, 0);
    if y !in P[..k + 1] {
      assert P[k] == P[..k + 1][k];
      assert EdgeArc(inst, p, y) == EdgeArc(inst, np, y);
    } else if y != u {
      var t := IndexOf(P[..k + 1], y);
      assert P[t] == y;
      assert t > 0;
      StemFacts(p, r, u, v, k, t - 1);
      var z := P[t - 1];
      ArcBetweenEnds(inst, z, y);
      PathDistinct(p, r, u, t - 1, k);
      assert EdgeArc(inst, p, z) == EdgeArc(inst, np, y);
    }
  }

  /** Every old tree arc other than the leaving one is a parent arc of the
      new tree. */
  lemma OldEdgeIsNew(inst: Instance, p: seq<int>, r: seq<nat>, u: int, v: int, k: int, np: seq<int>, y: int)
    requires Exchange(inst, p, r, u, v, k, np) && 0 < y < |p| && y != Path(p, r, u)[k]
    ensures exists z :: 0 < z < |np| && EdgeArc(inst, np, z) == EdgeArc(inst, p, y)
  {
    var P := Path(p, r, u);
    if y !in P[..k + 1] {
      assert EdgeArc(inst, np, y) == EdgeArc(inst, p, y);
    } else {
      var t := IndexOf(P[..k + 1], y);
      assert P[t] == y && t < k;
      StemFacts(p, r, u, v, k, t);
      StemFacts(p, r, u, v, k, t + 1);
      var z := P[t + 1];
      ArcBetweenEnds(inst, z, y);
      assert EdgeArc(inst, np, z) == EdgeArc(inst, p, y);
    }
  }

  /** The new tree still joins every node to an adjacent one. */
  lemma NewBipartite(inst: Instance, p: seq<int>, r: seq<nat>, u: int, v: int, k: int, np: seq<int>)
    requires Exchange(inst, p, r, u, v, k, np)
    ensures Bipartite(inst, np, NewDepth(p, r, u, v, k))
  {
    NewRanked(p, r, u, v, k, np);
    forall y | 0 < y < |np|
      ensures Adjacent(inst, y, np[y])
    {
      NewEdgeIsOld(inst, p, r, u, v, k, np, y);
    }
  }

  /** The tree arcs after the exchange are the old ones, without the
      leaving arc (the parent arc of q = Path(u)[k]) and with the entering
      arc (u, v). */
  lemma NewEdges(inst: Instance, p: seq<int>, r: seq<nat>, u: int, v: int, k: int, np: seq<int>, a: int)
    requires Exchange(inst, p, r, u, v, k, np) && 0 <= a < inst.m * inst.n
    ensures 0 < Path(p, r, u)[k] < |p|
    ensures TreeEdge(inst, np, a) <==>
      a == ArcBetween(inst, u, v) || (TreeEdge(inst, p, a) && a != EdgeArc(inst, p, Path(p, r, u)[k]))
  {
    var q := Path(p, r, u)[k];
    StemFacts(p, r, u, v, k, k);
    StemFacts(p, r, u, v, k, 0);
    NewBipartite(inst, p, r, u, v, k, np);
    var d := NewDepth(p, r, u, v, k);
    EdgeNode(inst, np, d, a);
    EdgeNode(inst, p, r, a);
    if TreeEdge(inst, np, a) {
      var y :| 0 < y < |np| && EdgeArc(inst, np, y) == a;
      NewEdgeIsOld(inst, p, r, u, v, k, np, y);
      if a != ArcBetween(inst, u, v) {
        var z :| 0 < z < |p| && z != q && EdgeArc(inst, p, z) == a;
        EdgeDistinct(inst, p, r, z, q);
      }
    }
    if a == ArcBetween(inst, u, v) {
      assert EdgeArc(inst, np, u) == a;
    } else if TreeEdge(inst, p, a) && a != EdgeArc(inst, p, q) {
      var y :| 0 < y < |p| && EdgeArc(inst, p, y) == a;
      OldEdgeIsNew(inst, p, r, u, v, k, np, y);
    }
  }
}
