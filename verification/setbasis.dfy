/** setBasis and the operations built on it: turning the flows of a
    solution into a basis tree (statuses, parent array, subtree sizes), and
    reading the flows back. */
module Setup {
  import opened FctpData
  import opened Trees
  import opened Solution
  import opened Basis
  import opened Rewire
  import opened ArcGraph
  import opened Kruskal
  import opened Explore
  import opened Levels

  /** The arcs joining the nodes 1..k-1 to their parents. */
  ghost function EdgesBelow(inst: Instance, p: seq<int>, k: int): set<int>
    requires 0 <= k <= |p|
  {
    set y | 0 < y < k :: EdgeArc(inst, p, y)
  }

  /** A tree on N nodes has N - 1 distinct parent arcs. */
  lemma {:induction false} EdgesBelowCard(inst: Instance, p: seq<int>, r: seq<nat>, k: int)
    requires Bipartite(inst, p, r) && 1 <= k <= |p|
    ensures |EdgesBelow(inst, p, k)| == k - 1
  {
    if k > 1 {
      EdgesBelowCard(inst, p, r, k - 1);
      forall y | 0 < y < k - 1
        ensures EdgeArc(inst, p, y) != EdgeArc(inst, p, k - 1)
      {
        EdgeDistinct(inst, p, r, y, k - 1);
      }
      assert EdgesBelow(inst, p, k) == EdgesBelow(inst, p, k - 1) + {EdgeArc(inst, p, k - 1)};
    }
  }

  /** When every parent arc of a spanning tree is basic and there are exactly
      as many basic arcs as tree arcs, the basic arcs are the tree arcs. */
  lemma BasicsAreTree(inst: Instance, p: seq<int>, r: seq<nat>, st: seq<Status>)
    requires Bipartite(inst, p, r) && |st| == inst.m * inst.n
    requires |Basics(st)| == inst.m + inst.n - 1
    requires forall y :: 0 < y < |p| ==> EdgeArc(inst, p, y) in Basics(st)
    ensures forall a :: 0 <= a < inst.m * inst.n ==> (st[a] == Basic <==> TreeEdge(inst, p, a))
  {
    var E := EdgesBelow(inst, p, |p|);
    EdgesBelowCard(inst, p, r, |p|);
    assert E <= Basics(st);
    if E < Basics(st) {
      SubsetCard(E, Basics(st));
      assert false;
    }
    forall a | 0 <= a < inst.m * inst.n
      ensures st[a] == Basic <==> TreeEdge(inst, p, a)
    {
      EdgeNode(inst, p, r, a);
      assert st[a] == Basic <==> a in E;
    }
  }

  /** The parent arcs the walk followed make a tree whose edges are exactly
      the basic arcs. */
  lemma WalkTree(inst: Instance, st: seq<Status>, p: seq<int>, depth: seq<int>)
    requires inst.m >= 1 && inst.n >= 1 && |st| == inst.m * inst.n
    requires Layered(p, depth) && |p| == inst.m + inst.n
    requires forall x :: 0 < x < |p| ==> Link(inst, Basics(st), x, p[x])
    requires |Basics(st)| == inst.m + inst.n - 1
    ensures forall v :: 0 < v < |p| ==> Adjacent(inst, v, p[v])
    ensures forall a :: 0 <= a < inst.m * inst.n ==> (st[a] == Basic <==> TreeEdge(inst, p, a))
  {
    LayeredLevelled(p, depth);
    BasicsAreTree(inst, p, AsRank(depth), st);
  }

  /** The basis structure setBasis builds, apart from the feasibility of
      the flows themselves. */
  ghost predicate BasisOf(inst: Instance, s: Sol) {
    && s.Shaped() && s.m == inst.m && s.n == inst.n
    && TreeEncoding(s.treeP, s.treeT)
    && (forall v :: 0 < v < |s.treeP| ==> Adjacent(inst, v, s.treeP[v]))
    && (forall a :: 0 <= a < inst.m * inst.n ==> (s.arcStat[a] == Basic <==> TreeEdge(inst, s.treeP, a)))
    && (forall a {:trigger s.arcStat[a]} :: 0 <= a < inst.m * inst.n && s.arcStat[a] != Basic ==> s.arcStat[a] == NonBas0 && s.flow[a] == 0)
  }

  /** The flows are non-negative and no supplier ships more than it has. */
  ghost predicate FeasibleFlow(inst: Instance, flow: seq<int>)
    requires inst.m >= 1 && inst.n >= 1 && |flow| == inst.m * inst.n && |inst.supply| == inst.m
  {
    && (forall a :: 0 <= a < inst.m * inst.n ==> flow[a] >= 0)
    && (forall i :: 0 <= i < inst.m ==> Balance(inst, flow, i) <= inst.supply[i])
  }

  /** A basis structure over feasible flows is a valid basis, and only then. */
  lemma BasisOfValid(inst: Instance, s: Sol)
    requires BasisOf(inst, s)
    ensures ValidBasis(inst, s) <==> inst.Valid() && FeasibleFlow(inst, s.flow)
  {
  }

  /** setBasis: the arcs with flow become basic as long as they close no
      cycle (otherwise the call fails), further zero-flow arcs are added
      until the basic arcs span all nodes, and the tree is stored as parent
      array and subtree sizes.  On failure only the statuses have changed. */
  method SetBasis(inst: Instance, s: Sol) returns (ok: bool, s2: Sol)
    requires s.Shaped() && s.m == inst.m && s.n == inst.n
    ensures ok <==> FlowForest(inst, s.flow)
    ensures s2.flow == s.flow && s2.totalCost == s.totalCost && s2.Shaped() && s2.m == s.m && s2.n == s.n
    ensures !ok ==> s2 == s.(arcStat := s2.arcStat)
    ensures ok ==> BasisOf(inst, s2)
    ensures ok ==> forall a :: 0 <= a < inst.m * inst.n && s.flow[a] != 0 ==> s2.arcStat[a] == Basic
    ensures ok ==> (ValidBasis(inst, s2) <==> inst.Valid() && FeasibleFlow(inst, s.flow))
  {
    var st;
    ok, st := ChooseBasics(inst, s.flow, s.arcStat);
    if !ok {
      s2 := s.(arcStat := st);
      return;
    }
    var p, depth := Walk(inst, st, s.treeP, s.treeT);
    var t := SubtreeSizes(p, depth);
    WalkTree(inst, st, p, depth);
    s2 := s.(arcStat := st, treeP := p, treeT := t);
    BasisOfValid(inst, s2);
  }

  /** getFlow(arc): the flow on an arc, and 0 for a number that is no arc.
      On a valid basis the flow read back is feasible for the arc: never
      negative, never more than its supplier holds, and zero unless the arc
      is basic. */
  function GetFlow(inst: Instance, s: Sol, arc: int): (r: int)
    requires |s.flow| == inst.m * inst.n
    ensures 0 <= arc < inst.m * inst.n ==> r == s.flow[arc]
    ensures !(0 <= arc < inst.m * inst.n) ==> r == 0
    ensures ValidBasis(inst, s) ==> 0 <= r < IntMax
    ensures ValidBasis(inst, s) && 0 <= arc < inst.m * inst.n ==>
      r <= inst.supply[Tail(inst, arc)] && (s.arcStat[arc] != Basic ==> r == 0)
  {
    BasisFlowFeasible(inst, s, arc);
    if 0 <= arc < inst.m * inst.n then s.flow[arc] else 0
  }

  /** The flow of a valid basis on an arc in range lies between 0 and the
      arc's supply, and is 0 on a non-basic arc. */
  lemma BasisFlowFeasible(inst: Instance, s: Sol, arc: int)
    ensures ValidBasis(inst, s) && 0 <= arc < inst.m * inst.n ==>
      0 <= s.flow[arc] <= inst.supply[Tail(inst, arc)] < IntMax
      && (s.arcStat[arc] != Basic ==> s.flow[arc] == 0)
  {
    if ValidBasis(inst, s) && 0 <= arc < inst.m * inst.n {
      FlowBelowSupply(inst, s.flow, arc);
    }
  }

  /** getFlow(i, j): the flow from supplier i to customer j. */
  function GetFlowIJ(inst: Instance, s: Sol, i: int, j: int): (r: int)
    requires inst.m >= 1 && inst.n >= 1 && |s.flow| == inst.m * inst.n
    ensures 0 <= i < inst.m && 0 <= j < inst.n ==>
      var a := ArcBetween(inst, i, inst.m + j);
      && Tail(inst, a) == i && Head(inst, a) == inst.m + j && r == GetFlow(inst, s, a) && 0 <= a < inst.m * inst.n
  {
    if 0 <= i < inst.m && 0 <= j < inst.n then
      ArcBetweenEnds(inst, i, inst.m + j);
      assert ArcBetween(inst, i, inst.m + j) == i * inst.n + j;
      GetFlow(inst, s, i * inst.n + j)
    else
      GetFlow(inst, s, i * inst.n + j)
  }

  /** setBasicSolution(): recompute the cost of the stored flows, then set
      up their basis. */
  method SetBasicSolution(inst: Instance, s: Sol) returns (ok: bool, s2: Sol)
    requires inst.Valid() && s.Shaped() && s.m == inst.m && s.n == inst.n
    ensures ok <==> FlowForest(inst, s.flow)
    ensures s2.flow == s.flow && s2.totalCost == FlowCost(inst.fcost, inst.tcost, s.flow)
    ensures ok ==> BasisOf(inst, s2)
    ensures ok ==> (ValidBasis(inst, s2) <==> FeasibleFlow(inst, s.flow))
  {
    var s1 := ComputeCost(s, inst.fcost, inst.tcost);
    ok, s2 := SetBasis(inst, s1);
  }

  /** setBasicSolution(arcFlow): copy the first m*n entries of arcFlow into
      the solution's flows, then proceed as setBasicSolution(). */
  method SetBasicSolutionFrom(inst: Instance, s: Sol, arcFlow: seq<int>) returns (ok: bool, s2: Sol)
    requires inst.Valid() && s.Shaped() && s.m == inst.m && s.n == inst.n
    requires |arcFlow| >= inst.m * inst.n
    ensures ok <==> FlowForest(inst, arcFlow[..inst.m * inst.n])
    ensures s2.flow == arcFlow[..inst.m * inst.n]
    ensures s2.totalCost == FlowCost(inst.fcost, inst.tcost, s2.flow)
    ensures ok ==> BasisOf(inst, s2)
    ensures ok ==> (ValidBasis(inst, s2) <==> FeasibleFlow(inst, s2.flow))
  {
    ok, s2 := SetBasicSolution(inst, s.(flow := arcFlow[..inst.m * inst.n]));
  }
}
