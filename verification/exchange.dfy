/** The basis exchange of FCTPbas.DoMove: the entering arc becomes basic,
    the leaving arc non-basic, the flow change is pushed around the cycle,
    and the tree's parent and subtree-size arrays are updated in place. */
module BasisExchange {
  import opened FctpData
  import opened Trees
  import opened Reroot
  import opened Solution
  import opened Basis
  import opened Evaluate
  import opened Cycle
  import opened Rewire
  import opened Pivoting

  /** The end node u of the entering arc whose path to the apex holds the
      leaving arc: the tail when iPath is set, the head otherwise. */
  function StemStart(inst: Instance, mv: Move): (u: int)
    requires inst.m >= 1 && inst.n >= 1 && 0 <= mv.inArc < inst.m * inst.n
    ensures u == Tail(inst, mv.inArc) || u == Head(inst, mv.inArc)
    ensures 0 <= u < inst.m + inst.n
  {
    if mv.iPath then Tail(inst, mv.inArc) else Head(inst, mv.inArc)
  }

  /** The other end node v of the entering arc, which becomes u's parent. */
  function StemEnd(inst: Instance, mv: Move): (v: int)
    requires inst.m >= 1 && inst.n >= 1 && 0 <= mv.inArc < inst.m * inst.n
    ensures v == Tail(inst, mv.inArc) || v == Head(inst, mv.inArc)
    ensures v != StemStart(inst, mv) && 0 <= v < inst.m + inst.n
  {
    if mv.iPath then Head(inst, mv.inArc) else Tail(inst, mv.inArc)
  }

  /** The end node of the leaving arc that is the child of the other in the
      old tree: the last node of the stem. */
  ghost function LeavingNode(inst: Instance, s: Sol, mv: Move): int
    requires ValidBasis(inst, s) && 0 <= mv.outArc < inst.m * inst.n
  {
    var t, h := Tail(inst, mv.outArc), Head(inst, mv.outArc);
    if s.treeP[t] == h then t else h
  }

  /** The exchange evaluated for a non-basic arc is a pivot of the tree: the
      leaving arc is the parent arc of a node q on the path from u to the
      apex, q is not an ancestor of v, and the entering arc joins u and v. */
  lemma MovePivot(inst: Instance, s: Sol, inArc: int)
    requires ValidBasis(inst, s) && 0 <= inArc < inst.m * inst.n && s.arcStat[inArc] != Basic
    ensures var mv := CompCostSav(inst, s, inArc);
      var u, v := StemStart(inst, mv), StemEnd(inst, mv);
      && 0 <= mv.outArc < inst.m * inst.n
      && Adjacent(inst, u, v) && ArcBetween(inst, u, v) == inArc
      && mv.apex == Meet(s.treeP, Rk(s), u, v)
      && 0 < LeavingNode(inst, s, mv) < |s.treeP|
      && EdgeArc(inst, s.treeP, LeavingNode(inst, s, mv)) == mv.outArc
      && LeavingNode(inst, s, mv) in Path(s.treeP, Rk(s), u)
      && LeavingNode(inst, s, mv) !in Path(s.treeP, Rk(s), mv.apex)
      && Pivot(s.treeP, Rk(s), u, v, IndexOf(Path(s.treeP, Rk(s), u), LeavingNode(inst, s, mv)))
  {
    var p, r := s.treeP, Rk(s);
    var mv := CompCostSav(inst, s, inArc);
    CycleLeaves(inst, s, inArc);
    var x :| DecreasingOnCycle(inst, s, inArc, mv.apex, x, mv.iPath) && EdgeArc(inst, p, x) == mv.outArc;
    var t, h := Tail(inst, inArc), Head(inst, inArc);
    var u, v := StemStart(inst, mv), StemEnd(inst, mv);
    ArcBetweenUnique(inst, t, h, inArc);
    ArcBetweenEnds(inst, t, h);
    MeetSymmetric(p, r, t, h);
    EdgeBasic(inst, s, x);
    if x == Head(inst, mv.outArc) && p[Tail(inst, mv.outArc)] == Head(inst, mv.outArc) {
      // x and its parent would be each other's parents
      assert false;
    }
    assert x == LeavingNode(inst, s, mv);
    if x in Path(p, r, v) {
      MeetCommon(p, r, u, v, x);
    }
  }

  /** Below the apex the two sides of the cycle are apart: a node is an
      ancestor of both q and v exactly when it is an ancestor of their
      meet, the apex. */
  lemma SidesMeet(p: seq<int>, r: seq<nat>, u: int, v: int, k: int, x: int)
    requires Pivot(p, r, u, v, k) && 0 <= x < |p|
    ensures PathShapeHolds(p, r, u)
    ensures 0 <= Path(p, r, u)[k] < |p|
    ensures (x in Path(p, r, Path(p, r, u)[k]) && x in Path(p, r, v)) <==> x in Path(p, r, Meet(p, r, u, v))
  {
    var q := Path(p, r, u)[k];
    QNotRoot(p, r, u, v, k);
    MeetCommon(p, r, u, v, x);
    if x in Path(p, r, q) {
      AncestorTrans(p, r, x, q, u);
    }
    if x in Path(p, r, Meet(p, r, u, v)) {
      AncestorsComparable(p, r, q, x, u);
      if q in Path(p, r, x) {
        AncestorTrans(p, r, q, x, v);
      }
    }
  }

  /** The apex lies above q's parent, and no ancestor of q's parent is in
      the cut subtree. */
  lemma AboveLeaving(p: seq<int>, r: seq<nat>, u: int, v: int, k: int, x: int)
    requires Pivot(p, r, u, v, k)
    ensures PathShapeHolds(p, r, u)
    ensures 0 < Path(p, r, u)[k] < |p|
    ensures Meet(p, r, u, v) in Path(p, r, p[Path(p, r, u)[k]])
    ensures x in Path(p, r, p[Path(p, r, u)[k]]) ==> x !in Cut(p, r, u, v, k)
  {
    var q := Path(p, r, u)[k];
    var a := Meet(p, r, u, v);
    QNotRoot(p, r, u, v, k);
    ParentOnPath(p, r, q);
    MeetCommon(p, r, u, v, q);
    AncestorsComparable(p, r, q, a, u);
    if q in Path(p, r, a) {
      AncestorTrans(p, r, q, a, v);
    }
    if x in Path(p, r, p[q]) && x in Cut(p, r, u, v, k) {
      AncestorTrans(p, r, x, p[q], q);
      AncestorAntisym(p, r, x, q);
      AncestorRank(p, r, q, p[q]);
    }
  }

  /** Nodes outside the cut subtree are off the stem. */
  lemma OffStem(p: seq<int>, r: seq<nat>, u: int, v: int, k: int, x: int)
    requires Pivot(p, r, u, v, k) && x !in Cut(p, r, u, v, k)
    ensures x !in Path(p, r, u)[..k + 1]
  {
    var P := Path(p, r, u);
    if x in P[..k + 1] {
      var t := IndexOf(P[..k + 1], x);
      StemInCut(p, r, u, v, k, t);
    }
  }

  /** The sizes the three passes of DoMove leave, in terms of the sizes
      before them: t1 after the walk from q's old parent to the apex, t2
      after the stem, t3 after the walk from v to the apex. */
  ghost predicate Passes(p: seq<int>, r: seq<nat>, u: int, v: int, k: int, apex: int,
                         tt: seq<int>, t1: seq<int>, t2: seq<int>, t3: seq<int>)
    requires Pivot(p, r, u, v, k) && 0 < Path(p, r, u)[k] < |p| && 0 <= apex < |p|
  {
    var P, q := Path(p, r, u), Path(p, r, u)[k];
    && |tt| == |p| && |t1| == |p| && |t3| == |p|
    && (forall x :: 0 <= x < |p| ==>
          t1[x] == tt[x] + (if x in Path(p, r, p[q]) && x !in Path(p, r, apex) then -tt[q] else 0))
    && Chain(P, |t1|, k) && StemSized(P, k, t1, t2)
    && (forall x :: 0 <= x < |p| ==>
          t3[x] == t2[x] + (if x in Path(p, r, v) && x !in Path(p, r, apex) then t2[u] else 0))
  }

  /** The first pass leaves stem nodes alone: they lie in the cut subtree,
      below q's old parent. */
  lemma FirstPassStem(p: seq<int>, r: seq<nat>, u: int, v: int, k: int, apex: int,
                      tt: seq<int>, t1: seq<int>, t2: seq<int>, t3: seq<int>, t: int)
    requires Pivot(p, r, u, v, k) && 0 < Path(p, r, u)[k] < |p| && 0 <= apex < |p|
    requires Passes(p, r, u, v, k, apex, tt, t1, t2, t3) && 0 <= t <= k
    ensures 0 <= Path(p, r, u)[t] < |p|
    ensures t1[Path(p, r, u)[t]] == tt[Path(p, r, u)[t]]
  {
    var x := Path(p, r, u)[t];
    StemInCut(p, r, u, v, k, t);
    AboveLeaving(p, r, u, v, k, x);
  }

  /** The last pass leaves stem nodes alone: v's path avoids the cut
      subtree. */
  lemma LastPassStem(p: seq<int>, r: seq<nat>, u: int, v: int, k: int, apex: int,
                     tt: seq<int>, t1: seq<int>, t2: seq<int>, t3: seq<int>, t: int)
    requires Pivot(p, r, u, v, k) && 0 < Path(p, r, u)[k] < |p| && 0 <= apex < |p|
    requires Passes(p, r, u, v, k, apex, tt, t1, t2, t3) && 0 <= t <= k
    ensures 0 <= Path(p, r, u)[t] < |p|
    ensures t3[Path(p, r, u)[t]] == t2[Path(p, r, u)[t]]
  {
    var x := Path(p, r, u)[t];
    StemInCut(p, r, u, v, k, t);
    if x in Path(p, r, v) {
      PathVOutsideCut(p, r, u, v, k, x);
    }
  }

  /** After the three passes a stem node holds what is left of the cut
      subtree below it. */
  lemma PassesStem(p: seq<int>, r: seq<nat>, u: int, v: int, k: int, apex: int,
                   tt: seq<int>, t1: seq<int>, t2: seq<int>, t3: seq<int>, t: int)
    requires Pivot(p, r, u, v, k) && 0 < Path(p, r, u)[k] < |p| && 0 <= apex < |p|
    requires Passes(p, r, u, v, k, apex, tt, t1, t2, t3) && 0 <= t <= k
    ensures 0 <= Path(p, r, u)[t] < |p|
    ensures t3[Path(p, r, u)[t]] == if t == 0 then tt[Path(p, r, u)[k]]
      else tt[Path(p, r, u)[k]] - tt[Path(p, r, u)[t - 1]]
  {
    var P := Path(p, r, u);
    FirstPassStem(p, r, u, v, k, apex, tt, t1, t2, t3, k);
    LastPassStem(p, r, u, v, k, apex, tt, t1, t2, t3, t);
    if t == 0 {
      assert t2[P[t]] == t1[P[k]];
    } else {
      FirstPassStem(p, r, u, v, k, apex, tt, t1, t2, t3, t - 1);
      assert t2[P[t]] == t1[P[k]] - t1[P[t - 1]];
    }
  }

  /** After the three passes a node off the stem has lost the cut subtree
      if it lies between q and the apex, gained it if it lies between v and
      the apex, and kept its size otherwise. */
  lemma PassesOff(p: seq<int>, r: seq<nat>, u: int, v: int, k: int,
                  tt: seq<int>, t1: seq<int>, t2: seq<int>, t3: seq<int>, x: int)
    requires Pivot(p, r, u, v, k) && 0 < Path(p, r, u)[k] < |p|
    requires 0 <= Meet(p, r, u, v) < |p|
    requires Passes(p, r, u, v, k, Meet(p, r, u, v), tt, t1, t2, t3)
    requires 0 <= x < |p| && x !in Path(p, r, u)[..k + 1]
    ensures var q := Path(p, r, u)[k];
      t3[x] == tt[x]
        - (if x in Path(p, r, q) && x !in Path(p, r, v) then tt[q] else 0)
        + (if x !in Path(p, r, q) && x in Path(p, r, v) then tt[q] else 0)
  {
    var P, q, a := Path(p, r, u), Path(p, r, u)[k], Meet(p, r, u, v);
    QNotRoot(p, r, u, v, k);
    StemInCut(p, r, u, v, k, k);
    AboveLeaving(p, r, u, v, k, q);
    assert t1[q] == tt[q];
    assert t2[P[0]] == t1[q];
    assert t2[x] == t1[x];
    assert P[..k + 1][k] == q;
    ParentOnPath(p, r, q);
    SidesMeet(p, r, u, v, k, x);
    MeetCommon(p, r, u, v, x);
  }

  /** SizeAfter of a stem node. */
  lemma SizeAfterStem(p: seq<int>, r: seq<nat>, u: int, v: int, k: int, tt: seq<int>, t: int)
    requires Pivot(p, r, u, v, k) && |tt| == |p| && 0 <= t <= k
    ensures PathShapeHolds(p, r, u) && 0 <= Path(p, r, u)[k] < |p| && 0 <= Path(p, r, u)[t] < |p|
    ensures SizeAfter(p, r, u, v, k, tt, Path(p, r, u)[t]) ==
      if t == 0 then tt[Path(p, r, u)[k]] else tt[Path(p, r, u)[k]] - tt[Path(p, r, u)[t - 1]]
  {
    var P := Path(p, r, u);
    QNotRoot(p, r, u, v, k);
    StemChain(p, r, u, v, k);
    assert P[..k + 1][t] == P[t];
    var i := IndexOf(P[..k + 1], P[t]);
    assert Position(P, k, P[i]) == i && Position(P, k, P[t]) == t;
  }

  /** SizeAfter of a node off the stem. */
  lemma SizeAfterOff(p: seq<int>, r: seq<nat>, u: int, v: int, k: int, tt: seq<int>, x: int)
    requires Pivot(p, r, u, v, k) && |tt| == |p| && 0 <= x < |p| && x !in Path(p, r, u)[..k + 1]
    ensures PathShapeHolds(p, r, u) && 0 <= Path(p, r, u)[k] < |p|
    ensures var q := Path(p, r, u)[k];
      SizeAfter(p, r, u, v, k, tt, x) == tt[x]
        - (if x in Path(p, r, q) && x !in Path(p, r, v) then tt[q] else 0)
        + (if x !in Path(p, r, q) && x in Path(p, r, v) then tt[q] else 0)
  {
    QNotRoot(p, r, u, v, k);
  }

  /** After the three passes every node holds its SizeAfter. */
  lemma PassesAt(p: seq<int>, r: seq<nat>, u: int, v: int, k: int,
                 tt: seq<int>, t1: seq<int>, t2: seq<int>, t3: seq<int>, x: int)
    requires Pivot(p, r, u, v, k) && 0 < Path(p, r, u)[k] < |p|
    requires 0 <= Meet(p, r, u, v) < |p|
    requires Passes(p, r, u, v, k, Meet(p, r, u, v), tt, t1, t2, t3) && 0 <= x < |p|
    ensures t3[x] == SizeAfter(p, r, u, v, k, tt, x)
  {
    var P := Path(p, r, u);
    if x in P[..k + 1] {
      var t := IndexOf(P[..k + 1], x);
      assert P[t] == x;
      PassesStem(p, r, u, v, k, Meet(p, r, u, v), tt, t1, t2, t3, t);
      SizeAfterStem(p, r, u, v, k, tt, t);
    } else {
      PassesOff(p, r, u, v, k, tt, t1, t2, t3, x);
      SizeAfterOff(p, r, u, v, k, tt, x);
    }
  }
  /** Nodes above q's old parent and nodes above v keep their parents in
      the rewired tree: DoMove's size walks follow old tree paths. */
  lemma WalksOffStem(p: seq<int>, r: seq<nat>, u: int, v: int, k: int, np: seq<int>)
    requires Pivot(p, r, u, v, k) && Rewired(p, r, u, v, k, np)
    ensures PathShapeHolds(p, r, u) && 0 < Path(p, r, u)[k] < |p|
    ensures forall x :: x in Path(p, r, p[Path(p, r, u)[k]]) ==> 0 <= x < |p| && np[x] == p[x]
    ensures forall x :: x in Path(p, r, v) ==> 0 <= x < |p| && np[x] == p[x]
  {
    var q := Path(p, r, u)[k];
    QNotRoot(p, r, u, v, k);
    forall x | x in Path(p, r, p[q])
      ensures 0 <= x < |p| && np[x] == p[x]
    {
      AncestorRank(p, r, x, p[q]);
      AboveLeaving(p, r, u, v, k, x);
      OffStem(p, r, u, v, k, x);
    }
    forall x | x in Path(p, r, v)
      ensures 0 <= x < |p| && np[x] == p[x]
    {
      AncestorRank(p, r, x, v);
      PathVOutsideCut(p, r, u, v, k, x);
      OffStem(p, r, u, v, k, x);
    }
  }

  /** The parent and size arrays np and nt are the tree of s after the
      exchange mv: the stem from u to the leaving node reversed and hung
      below v, and every node holding its SizeAfter. */
  ghost predicate TreeAfter(inst: Instance, s: Sol, mv: Move, np: seq<int>, nt: seq<int>)
    requires ValidBasis(inst, s) && 0 <= mv.inArc < inst.m * inst.n && s.arcStat[mv.inArc] != Basic
    requires mv == CompCostSav(inst, s, mv.inArc)
  {
    MovePivot(inst, s, mv.inArc);
    var p, r, u, v := s.treeP, Rk(s), StemStart(inst, mv), StemEnd(inst, mv);
    var k := IndexOf(Path(p, r, u), LeavingNode(inst, s, mv));
    && Rewired(p, r, u, v, k, np)
    && |nt| == |p| && forall x :: 0 <= x < |p| ==> nt[x] == SizeAfter(p, r, u, v, k, s.treeT, x)
  }

  /** The tree after the exchange is a tree encoding whose edges join
      suppliers and customers, and whose edges are the old ones with the
      leaving arc swapped for the entering arc. */
  lemma TreeAfterValid(inst: Instance, s: Sol, mv: Move, np: seq<int>, nt: seq<int>)
    requires ValidBasis(inst, s) && 0 <= mv.inArc < inst.m * inst.n && s.arcStat[mv.inArc] != Basic
    requires mv == CompCostSav(inst, s, mv.inArc)
    requires TreeAfter(inst, s, mv, np, nt)
    ensures TreeEncoding(np, nt)
    ensures forall y :: 0 < y < |np| ==> Adjacent(inst, y, np[y])
    ensures 0 <= mv.outArc < inst.m * inst.n && mv.outArc != mv.inArc
    ensures forall a :: 0 <= a < inst.m * inst.n ==>
      (TreeEdge(inst, np, a) <==> a == mv.inArc || (TreeEdge(inst, s.treeP, a) && a != mv.outArc))
  {
    MovePivot(inst, s, mv.inArc);
    var p, r, u, v := s.treeP, Rk(s), StemStart(inst, mv), StemEnd(inst, mv);
    var q := LeavingNode(inst, s, mv);
    var k := IndexOf(Path(p, r, u), q);
    var d := NewDepth(p, r, u, v, k);
    NewRanked(p, r, u, v, k, np);
    forall x | 0 <= x < |np|
      ensures nt[x] == |Sub(np, d, x)|
    {
      NewSizes(p, r, u, v, k, np, s.treeT, x);
    }
    EncodingOfSizes(np, d, nt);
    assert Exchange(inst, p, r, u, v, k, np);
    NewBipartite(inst, p, r, u, v, k, np);
    EdgeBasic(inst, s, q);
    forall a | 0 <= a < inst.m * inst.n
      ensures TreeEdge(inst, np, a) <==> a == mv.inArc || (TreeEdge(inst, p, a) && a != mv.outArc)
    {
      NewEdges(inst, p, r, u, v, k, np, a);
    }
  }
  /** Each arc after the exchange: basic exactly when it is a tree edge,
      with non-negative flow, and empty at its lower bound when non-basic. */
  lemma ExchangeArc(inst: Instance, s: Sol, mv: Move, s2: Sol, a: int)
    requires ValidBasis(inst, s) && 0 <= mv.inArc < inst.m * inst.n && s.arcStat[mv.inArc] != Basic
    requires mv == CompCostSav(inst, s, mv.inArc)
    requires 0 <= mv.outArc < inst.m * inst.n
    requires s2.arcStat == s.arcStat[mv.inArc := Basic][mv.outArc := NonBas0]
    requires s2.flow == MovedFlow(inst, s, mv)
    requires TreeAfter(inst, s, mv, s2.treeP, s2.treeT)
    requires 0 <= a < inst.m * inst.n
    ensures |s2.treeP| == inst.m + inst.n
    ensures s2.arcStat[a] == Basic <==> TreeEdge(inst, s2.treeP, a)
    ensures s2.flow[a] >= 0
    ensures s2.arcStat[a] != Basic ==> s2.arcStat[a] == NonBas0 && s2.flow[a] == 0
  {
    TreeAfterValid(inst, s, mv, s2.treeP, s2.treeT);
    CycleLeaves(inst, s, mv.inArc);
    EvalFits(inst, s, mv.inArc);
    if a == mv.outArc {
      LeavingArcEmptied(inst, s, mv);
    }
    ArcAfterMove(inst, s, mv, a);
  }

  /** Carrying out the exchange evaluated for a non-basic arc yields a
      valid basis again. */
  lemma ExchangeValid(inst: Instance, s: Sol, mv: Move, s2: Sol)
    requires ValidBasis(inst, s) && 0 <= mv.inArc < inst.m * inst.n && s.arcStat[mv.inArc] != Basic
    requires mv == CompCostSav(inst, s, mv.inArc)
    requires s2.m == s.m && s2.n == s.n
    requires 0 <= mv.outArc < inst.m * inst.n
    requires s2.arcStat == s.arcStat[mv.inArc := Basic][mv.outArc := NonBas0]
    requires s2.flow == MovedFlow(inst, s, mv)
    requires TreeAfter(inst, s, mv, s2.treeP, s2.treeT)
    ensures ValidBasis(inst, s2)
  {
    TreeAfterValid(inst, s, mv, s2.treeP, s2.treeT);
    forall a | 0 <= a < inst.m * inst.n
      ensures s2.arcStat[a] == Basic <==> TreeEdge(inst, s2.treeP, a)
      ensures s2.flow[a] >= 0
      ensures s2.arcStat[a] != Basic ==> s2.arcStat[a] == NonBas0 && s2.flow[a] == 0
    {
      ExchangeArc(inst, s, mv, s2, a);
    }
    forall i | 0 <= i < inst.m
      ensures Balance(inst, s2.flow, i) <= inst.supply[i]
    {
      Conservation(inst, s, mv, i);
    }
  }

  /** DoMove's flow update: the entering arc changes by sign * flowChg, then
      the tree paths from its tail and from its head up to the apex. */
  method MoveFlows(inst: Instance, s: Sol, mv: Move) returns (flow: seq<int>)
    requires ValidBasis(inst, s) && 0 <= mv.inArc < inst.m * inst.n && (mv.sign == 1 || mv.sign == -1)
    requires mv.apex in Path(s.treeP, Rk(s), Tail(inst, mv.inArc))
    requires mv.apex in Path(s.treeP, Rk(s), Head(inst, mv.inArc))
    ensures flow == MovedFlow(inst, s, mv)
  {
    var delta := mv.flowChg * mv.sign;
    assert delta == mv.Delta();
    flow := s.flow[mv.inArc := s.flow[mv.inArc] + delta];
    assert flow == Entered(inst, s, mv);
    flow := PushLoop(inst, s, flow, Tail(inst, mv.inArc), mv.apex, delta);
    assert flow == AfterTail(inst, s, mv);
    flow := PushLoop(inst, s, flow, Head(inst, mv.inArc), mv.apex, -delta);
  }

  /** DoMove's tree update on the tree alone: reverse the stem from u to
      the leaving arc (the parent arc of q = Path(u)[k]) and hang u below v,
      then correct the subtree sizes in three passes. */
  method Repivot(inst: Instance, p: seq<int>, ghost r: seq<nat>, tt: seq<int>, u: int, v: int,
                 outArc: int, apex: int, ghost k: int)
    returns (np: seq<int>, nt: seq<int>)
    requires Bipartite(inst, p, r) && Pivot(p, r, u, v, k) && |tt| == |p|
    requires 0 <= outArc < inst.m * inst.n
    requires 0 < Path(p, r, u)[k] < |p| && EdgeArc(inst, p, Path(p, r, u)[k]) == outArc
    requires 0 <= apex < |p| && apex == Meet(p, r, u, v)
    ensures Rewired(p, r, u, v, k, np)
    ensures |nt| == |p| && forall x :: 0 <= x < |p| ==> nt[x] == SizeAfter(p, r, u, v, k, tt, x)
  {
    ghost var P := Path(p, r, u);
    var q;
    np, q := ReverseStem(inst, p, r, u, v, outArc, k);
    WalksOffStem(p, r, u, v, k, np);
    AboveLeaving(p, r, u, v, k, q);
    ArcBetweenEnds(inst, q, p[q]);
    MeetCommon(p, r, u, v, u);
    // the old parent of q up to the apex loses q's subtree ...
    var j := if q == Tail(inst, outArc) then Head(inst, outArc) else Tail(inst, outArc);
    assert j == p[q];
    var t1 := AddOnPath(np, p, r, tt, j, apex, -tt[q]);
    // ... the stem is resized ...
    StemChain(p, r, u, v, k);
    PathShape(p, r, u);
    var t2 := StemSizes(np, P, k, t1, q, u);
    // ... and v up to the apex gains it
    nt := AddOnPath(np, p, r, t2, np[u], apex, t2[u]);
    assert Passes(p, r, u, v, k, apex, tt, t1, t2, nt);
    forall x | 0 <= x < |p|
      ensures nt[x] == SizeAfter(p, r, u, v, k, tt, x)
    {
      PassesAt(p, r, u, v, k, tt, t1, t2, nt, x);
    }
  }

  /** DoMove's tree update for the exchange evaluated for a non-basic arc. */
  method MoveTree(inst: Instance, s: Sol, mv: Move) returns (np: seq<int>, nt: seq<int>)
    requires ValidBasis(inst, s) && 0 <= mv.inArc < inst.m * inst.n && s.arcStat[mv.inArc] != Basic
    requires mv == CompCostSav(inst, s, mv.inArc)
    ensures TreeAfter(inst, s, mv, np, nt)
  {
    MovePivot(inst, s, mv.inArc);
    var u, v := Tail(inst, mv.inArc), Head(inst, mv.inArc);
    if !mv.iPath {
      u, v := Head(inst, mv.inArc), Tail(inst, mv.inArc);
    }
    ghost var k := IndexOf(Path(s.treeP, Rk(s), u), LeavingNode(inst, s, mv));
    np, nt := Repivot(inst, s.treeP, Rk(s), s.treeT, u, v, mv.outArc, mv.apex, k);
  }

  /** Java's DoMove for the exchange evaluated for a non-basic arc: the
      entering arc becomes basic and the leaving arc non-basic, the flow
      change goes around the cycle, the total cost drops by the saving, and
      the parent and size arrays are updated in place to the tree after the
      exchange.  The result is again a valid basis. */
  method DoMove(inst: Instance, s: Sol, mv: Move) returns (s2: Sol)
    requires ValidBasis(inst, s) && 0 <= mv.inArc < inst.m * inst.n && s.arcStat[mv.inArc] != Basic
    requires mv == CompCostSav(inst, s, mv.inArc)
    ensures ValidBasis(inst, s2)
    ensures 0 <= mv.outArc < inst.m * inst.n && mv.outArc != mv.inArc
    ensures s2.arcStat == s.arcStat[mv.inArc := Basic][mv.outArc := NonBas0]
    ensures s2.flow == MovedFlow(inst, s, mv)
    ensures TreeAfter(inst, s, mv, s2.treeP, s2.treeT)
    ensures s2.totalCost == s.totalCost - mv.saving
  {
    MovePivot(inst, s, mv.inArc);
    CycleLeaves(inst, s, mv.inArc);
    var stat := s.arcStat[mv.inArc := Basic];
    stat := stat[mv.outArc := if mv.toUpper then NonBasU else NonBas0];
    var cost := s.totalCost - mv.saving;
    var flow := MoveFlows(inst, s, mv);
    var np, nt := MoveTree(inst, s, mv);
    s2 := Sol(s.m, s.n, stat, np, nt, cost, flow);
    ExchangeValid(inst, s, mv, s2);
    TreeAfterValid(inst, s, mv, np, nt);
  }
}
