/** What it means for a solution object to hold a valid basic solution: the
    basic arcs form a spanning tree of the bipartite graph, stored as a parent
    array rooted at node 0 together with the size of every subtree, and every
    non-basic arc sits at its lower bound zero. */
module Basis {
  import opened FctpData
  import opened Trees
  import opened Solution

  /** The rank a subtree-size array induces: the bigger a node's subtree, the
      closer the node is to the root. */
  function TRank(N: int, t: seq<int>): (r: seq<nat>)
    requires forall v :: 0 <= v < |t| ==> t[v] <= N
    ensures |r| == |t|
    ensures forall v :: 0 <= v < |t| ==> r[v] + t[v] == N
  {
    seq(|t|, v requires 0 <= v < |t| => N - t[v])
  }

  /** The parent array p is a tree rooted at 0 and t holds its subtree sizes. */
  ghost predicate TreeEncoding(p: seq<int>, t: seq<int>) {
    && |p| >= 1 && |t| == |p|
    && (forall v :: 0 <= v < |t| ==> 1 <= t[v] <= |p|)
    && Ranked(p, TRank(|p|, t))
    && SizesOf(p, TRank(|p|, t), t)
  }

  /** Any ranked parent array together with its true subtree sizes is a tree
      encoding: the sizes themselves then rank the tree. */
  lemma EncodingOfSizes(p: seq<int>, d: seq<nat>, t: seq<int>)
    requires Ranked(p, d) && |t| == |p|
    requires forall x :: 0 <= x < |p| ==> t[x] == |Sub(p, d, x)|
    ensures TreeEncoding(p, t)
  {
    forall x | 0 <= x < |p|
      ensures 1 <= t[x] <= |p|
    {
      SubSize(p, d, x);
    }
    var R := TRank(|p|, t);
    forall w | 0 < w < |p|
      ensures 0 <= p[w] < |p| && R[p[w]] < R[w]
    {
      ParentOnPath(p, d, w);
      SubStrict(p, d, w, p[w]);
    }
    assert Ranked(p, R);
    forall x | 0 <= x < |p|
      ensures t[x] == |Sub(p, R, x)|
    {
      SubRankFree(p, d, R, x);
    }
  }

  /** Arc a joins a node of the tree to its parent. */
  predicate TreeEdge(inst: Instance, p: seq<int>, a: int)
    requires inst.m >= 1 && inst.n >= 1 && |p| == inst.m + inst.n && 0 <= a < inst.m * inst.n
  {
    ArcRange(a, inst.m, inst.n);
    p[Head(inst, a)] == Tail(inst, a) || p[Tail(inst, a)] == Head(inst, a)
  }

  /** A valid basic solution of the instance (without capacities). */
  ghost predicate ValidBasis(inst: Instance, s: Sol) {
    && inst.Valid() && s.m == inst.m && s.n == inst.n && s.Shaped()
    && TreeEncoding(s.treeP, s.treeT)
    && (forall v :: 0 < v < |s.treeP| ==> Adjacent(inst, v, s.treeP[v]))
    && (forall a :: 0 <= a < inst.m * inst.n ==> (s.arcStat[a] == Basic <==> TreeEdge(inst, s.treeP, a)))
    && (forall a :: 0 <= a < inst.m * inst.n ==> s.flow[a] >= 0)
    && (forall a {:trigger s.arcStat[a]} :: 0 <= a < inst.m * inst.n && s.arcStat[a] != Basic ==> s.arcStat[a] == NonBas0 && s.flow[a] == 0)
    && (forall i :: 0 <= i < inst.m ==> Balance(inst, s.flow, i) <= inst.supply[i])
  }

  /** The rank of the tree of a valid basis. */
  ghost function Rk(s: Sol): seq<nat>
    requires TreeEncoding(s.treeP, s.treeT)
  {
    TRank(|s.treeP|, s.treeT)
  }

  /** The arc joining a non-root node to its parent. */
  function EdgeArc(inst: Instance, p: seq<int>, v: int): int
    requires 0 <= v < |p|
  {
    ArcBetween(inst, v, p[v])
  }

  /** Subtree sizes order the tree: a parent's subtree is bigger than its
      child's, the root's is everything, and no other subtree is. */
  lemma SizeFacts(inst: Instance, s: Sol, v: int)
    requires ValidBasis(inst, s) && 0 <= v < |s.treeP|
    ensures s.treeT[0] == |s.treeP|
    ensures v != 0 ==> s.treeT[s.treeP[v]] > s.treeT[v]
    ensures s.treeT[v] == |s.treeP| ==> v == 0
  {
    SubSize(s.treeP, Rk(s), v);
    SubRoot(s.treeP, Rk(s));
    RangeCard(|s.treeP|);
  }

  /** The arc from a non-root node to its parent is in range, joins exactly
      those two nodes and is basic. */
  lemma EdgeBasic(inst: Instance, s: Sol, v: int)
    requires ValidBasis(inst, s) && 0 < v < |s.treeP|
    ensures 0 <= EdgeArc(inst, s.treeP, v) < inst.m * inst.n
    ensures var a := EdgeArc(inst, s.treeP, v);
      (Tail(inst, a) == v && Head(inst, a) == s.treeP[v]) || (Tail(inst, a) == s.treeP[v] && Head(inst, a) == v)
    ensures s.arcStat[EdgeArc(inst, s.treeP, v)] == Basic
  {
    ArcBetweenEnds(inst, v, s.treeP[v]);
    var a := EdgeArc(inst, s.treeP, v);
    ArcRange(a, inst.m, inst.n);
    assert TreeEdge(inst, s.treeP, a);
  }

  /** Edges of different nodes are different arcs. */
  lemma EdgeInjective(inst: Instance, s: Sol, v: int, w: int)
    requires ValidBasis(inst, s) && 0 < v < |s.treeP| && 0 < w < |s.treeP| && v != w
    ensures EdgeArc(inst, s.treeP, v) != EdgeArc(inst, s.treeP, w)
  {
    EdgeBasic(inst, s, v);
    EdgeBasic(inst, s, w);
    var p := s.treeP;
    if EdgeArc(inst, p, v) == EdgeArc(inst, p, w) {
      // then {v, p[v]} == {w, p[w]}, so v == p[w] and w == p[v]
      assert v == p[w] && w == p[v];
      SizeFacts(inst, s, v);
      SizeFacts(inst, s, w);
      assert false;
    }
  }

  lemma {:induction false} RowSumAtLeast(inst: Instance, flow: seq<int>, i: int, k: int, j: int)
    requires inst.m >= 1 && inst.n >= 1 && |flow| == inst.m * inst.n
    requires 0 <= i < inst.m && 0 <= j < k <= inst.n
    requires forall a :: 0 <= a < |flow| ==> flow[a] >= 0
    ensures 0 <= i * inst.n + j < |flow|
    ensures RowSum(inst, flow, i, k) >= flow[i * inst.n + j]
  {
    ArcOfRange(i, j, inst.m, inst.n);
    ArcOfRange(i, k - 1, inst.m, inst.n);
    RowSumNonNeg(inst, flow, i, k - 1);
    if j < k - 1 {
      RowSumAtLeast(inst, flow, i, k - 1, j);
    }
  }

  lemma {:induction false} RowSumNonNeg(inst: Instance, flow: seq<int>, i: int, k: int)
    requires inst.m >= 1 && inst.n >= 1 && |flow| == inst.m * inst.n
    requires 0 <= i < inst.m && 0 <= k <= inst.n
    requires forall a :: 0 <= a < |flow| ==> flow[a] >= 0
    ensures RowSum(inst, flow, i, k) >= 0
  {
    if k > 0 {
      ArcOfRange(i, k - 1, inst.m, inst.n);
      RowSumNonNeg(inst, flow, i, k - 1);
    }
  }

  /** No arc of a valid basis carries as much as Integer.MAX_VALUE: its flow
      is at most its supplier's supply. */
  lemma FlowBound(inst: Instance, s: Sol, a: int)
    requires ValidBasis(inst, s) && 0 <= a < inst.m * inst.n
    ensures 0 <= s.flow[a] < IntMax
  {
    FlowBelowSupply(inst, s.flow, a);
  }

  lemma FlowBelowSupply(inst: Instance, flow: seq<int>, a: int)
    requires inst.Valid() && |flow| == inst.m * inst.n && 0 <= a < |flow|
    requires forall b :: 0 <= b < |flow| ==> flow[b] >= 0
    requires forall i :: 0 <= i < inst.m ==> Balance(inst, flow, i) <= inst.supply[i]
    ensures flow[a] <= inst.supply[Tail(inst, a)] < IntMax
  {
    ArcRange(a, inst.m, inst.n);
    var i, j := a / inst.n, a % inst.n;
    RowSumAtLeast(inst, flow, i, inst.n, j);
    assert a == i * inst.n + j;
    assert Balance(inst, flow, i) == RowSum(inst, flow, i, inst.n);
  }
}
