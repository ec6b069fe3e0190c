/** What carrying out a basis exchange does to the flows (the flow update of
    FCTPbas.DoMove): every node keeps its balance, each arc of the cycle
    changes by the flow change, the leaving arc drops to zero and no other
    arc changes. */
module Cycle {
  import opened FctpData
  import opened Trees
  import opened Solution
  import opened Basis
  import opened Evaluate

  // ---------------------------------------------------------------------------
  // Conservation
  // ---------------------------------------------------------------------------

  /** Net outflow of a node: a supplier's outflow, minus a customer's inflow. */
  function NetOut(inst: Instance, flow: seq<int>, v: int): int
    requires inst.m >= 1 && inst.n >= 1 && |flow| == inst.m * inst.n && 0 <= v < inst.m + inst.n
  {
    if v < inst.m then Balance(inst, flow, v) else -Balance(inst, flow, v)
  }

  /** Pushing delta from i to its parent pred moves delta of net outflow
      from i to pred. */
  lemma PushNet(inst: Instance, flow: seq<int>, pred: int, i: int, delta: int, v: int)
    requires inst.m >= 1 && inst.n >= 1 && |flow| == inst.m * inst.n && Adjacent(inst, i, pred)
    requires 0 <= v < inst.m + inst.n
    ensures NetOut(inst, Push(inst, flow, pred, i, delta), v)
      == NetOut(inst, flow, v) - (if v == i then delta else 0) + (if v == pred then delta else 0)
  {
    ArcBetweenEnds(inst, i, pred);
    var a := ArcBetween(inst, i, pred);
    var c := if pred < inst.m then delta else -delta;
    assert Push(inst, flow, pred, i, delta) == flow[a := flow[a] + c];
    BalanceUpdate(inst, flow, a, c, v);
  }

  /** Pushing delta along the path from x up to apex moves delta of net
      outflow from x to apex and leaves every other node alone. */
  lemma {:induction false} PushPathNet(inst: Instance, s: Sol, g: seq<int>, x: int, apex: int, delta: int, v: int)
    requires ValidBasis(inst, s) && |g| == inst.m * inst.n
    requires 0 <= x < |s.treeP| && apex in Path(s.treeP, Rk(s), x)
    requires 0 <= v < inst.m + inst.n
    ensures NetOut(inst, PushPath(inst, s, g, x, apex, delta), v)
      == NetOut(inst, g, v) - (if v == x then delta else 0) + (if v == apex then delta else 0)
    decreases Rk(s)[x]
  {
    if x != apex {
      UpStep(inst, s, x, apex);
      var g' := Push(inst, g, s.treeP[x], x, delta);
      PushNet(inst, g, s.treeP[x], x, delta, v);
      PushPathNet(inst, s, g', s.treeP[x], apex, delta, v);
    }
  }

  /** Raising the entering arc moves net outflow from its customer to its
      supplier. */
  lemma EnteredNet(inst: Instance, s: Sol, mv: Move, v: int)
    requires ValidBasis(inst, s) && 0 <= mv.inArc < inst.m * inst.n
    requires 0 <= v < inst.m + inst.n
    ensures NetOut(inst, Entered(inst, s, mv), v) == NetOut(inst, s.flow, v)
      + (if v == Tail(inst, mv.inArc) then mv.Delta() else 0)
      - (if v == Head(inst, mv.inArc) then mv.Delta() else 0)
  {
    BalanceUpdate(inst, s.flow, mv.inArc, mv.Delta(), v);
  }

  /** Carrying out an exchange keeps every supplier's outflow and every
      customer's inflow. */
  lemma Conservation(inst: Instance, s: Sol, mv: Move, v: int)
    requires ValidBasis(inst, s) && 0 <= mv.inArc < inst.m * inst.n
    requires mv.apex in Path(s.treeP, Rk(s), Tail(inst, mv.inArc))
    requires mv.apex in Path(s.treeP, Rk(s), Head(inst, mv.inArc))
    requires 0 <= v < inst.m + inst.n
    ensures Balance(inst, MovedFlow(inst, s, mv), v) == Balance(inst, s.flow, v)
  {
    EnteredNet(inst, s, mv, v);
    PushPathNet(inst, s, Entered(inst, s, mv), Tail(inst, mv.inArc), mv.apex, mv.Delta(), v);
    PushPathNet(inst, s, AfterTail(inst, s, mv), Head(inst, mv.inArc), mv.apex, -mv.Delta(), v);
  }

  // ---------------------------------------------------------------------------
  // The new flow of each arc
  // ---------------------------------------------------------------------------

  /** Pushing along a path sets the parent arc of each node below the apex
      to its NewArcFlow. */
  lemma {:induction false} PushPathAt(inst: Instance, s: Sol, g: seq<int>, x: int, apex: int, delta: int, y: int)
    requires ValidBasis(inst, s) && |g| == inst.m * inst.n
    requires 0 <= x < |s.treeP| && 0 <= apex < |s.treeP| && apex in Path(s.treeP, Rk(s), x)
    requires Below(s, x, apex, y)
    ensures 0 < y < |s.treeP| && Adjacent(inst, y, s.treeP[y])
    ensures 0 <= EdgeArc(inst, s.treeP, y) < inst.m * inst.n
    ensures PushPath(inst, s, g, x, apex, delta)[EdgeArc(inst, s.treeP, y)]
      == NewArcFlow(inst, g, s.treeP[y], y, delta)
    decreases Rk(s)[x]
  {
    var p := s.treeP;
    BelowFacts(inst, s, x, apex, y);
    EdgeBasic(inst, s, y);
    UpStep(inst, s, x, apex);
    var g' := Push(inst, g, p[x], x, delta);
    if y == x {
      forall z | Below(s, p[x], apex, z)
        ensures 0 <= z < |p| && EdgeArc(inst, p, z) != EdgeArc(inst, p, x)
      {
        BelowFacts(inst, s, p[x], apex, z);
        AncestorRank(p, Rk(s), z, p[x]);
        EdgeInjective(inst, s, x, z);
      }
      PushPathFrame(inst, s, g', p[x], apex, delta, EdgeArc(inst, p, x));
    } else {
      ParentOnPath(p, Rk(s), x);
      assert Below(s, p[x], apex, y);
      EdgeInjective(inst, s, x, y);
      PushPathAt(inst, s, g', p[x], apex, delta, y);
    }
  }

  /** The entering arc is left alone by both path pushes. */
  lemma EnteringArcFlow(inst: Instance, s: Sol, mv: Move)
    requires ValidBasis(inst, s) && 0 <= mv.inArc < inst.m * inst.n
    requires mv.apex in Path(s.treeP, Rk(s), Tail(inst, mv.inArc))
    requires mv.apex in Path(s.treeP, Rk(s), Head(inst, mv.inArc))
    requires s.arcStat[mv.inArc] != Basic
    ensures MovedFlow(inst, s, mv)[mv.inArc] == s.flow[mv.inArc] + mv.Delta()
  {
    var t, h := Tail(inst, mv.inArc), Head(inst, mv.inArc);
    AncestorRank(s.treeP, Rk(s), mv.apex, t);
    forall z | Below(s, t, mv.apex, z)
      ensures 0 <= z < |s.treeP| && EdgeArc(inst, s.treeP, z) != mv.inArc
    {
      BelowFacts(inst, s, t, mv.apex, z);
      EdgeBasic(inst, s, z);
    }
    PushPathFrame(inst, s, Entered(inst, s, mv), t, mv.apex, mv.Delta(), mv.inArc);
    forall z | Below(s, h, mv.apex, z)
      ensures 0 <= z < |s.treeP| && EdgeArc(inst, s.treeP, z) != mv.inArc
    {
      BelowFacts(inst, s, h, mv.apex, z);
      EdgeBasic(inst, s, z);
    }
    PushPathFrame(inst, s, AfterTail(inst, s, mv), h, mv.apex, -mv.Delta(), mv.inArc);
  }

  /** An arc of the tail's side gains the flow change, or loses it when it
      points the other way. */
  lemma TailArcFlow(inst: Instance, s: Sol, mv: Move, y: int)
    requires ValidBasis(inst, s) && Fits(inst, s, mv) && s.arcStat[mv.inArc] != Basic
    requires mv.apex == Meet(s.treeP, Rk(s), Tail(inst, mv.inArc), Head(inst, mv.inArc))
    requires Below(s, Tail(inst, mv.inArc), mv.apex, y)
    ensures 0 < y < |s.treeP| && 0 <= EdgeArc(inst, s.treeP, y) < inst.m * inst.n
    ensures MovedFlow(inst, s, mv)[EdgeArc(inst, s.treeP, y)] == s.flow[EdgeArc(inst, s.treeP, y)]
      + (if Decreasing(inst, s.treeP, y, true) then -mv.flowChg else mv.flowChg)
  {
    var t, h := Tail(inst, mv.inArc), Head(inst, mv.inArc);
    PushPathAt(inst, s, Entered(inst, s, mv), t, mv.apex, mv.Delta(), y);
    EdgeBasic(inst, s, y);
    var e := EdgeArc(inst, s.treeP, y);
    forall z | Below(s, h, mv.apex, z)
      ensures 0 <= z < |s.treeP| && EdgeArc(inst, s.treeP, z) != e
    {
      BelowFacts(inst, s, h, mv.apex, z);
      MeetCommon(s.treeP, Rk(s), t, h, y);
      EdgeInjective(inst, s, y, z);
    }
    PushPathFrame(inst, s, AfterTail(inst, s, mv), h, mv.apex, -mv.Delta(), e);
  }

  /** An arc of the head's side loses the flow change, or gains it when it
      points the other way. */
  lemma HeadArcFlow(inst: Instance, s: Sol, mv: Move, y: int)
    requires ValidBasis(inst, s) && Fits(inst, s, mv) && s.arcStat[mv.inArc] != Basic
    requires mv.apex == Meet(s.treeP, Rk(s), Tail(inst, mv.inArc), Head(inst, mv.inArc))
    requires Below(s, Head(inst, mv.inArc), mv.apex, y)
    ensures 0 < y < |s.treeP| && 0 <= EdgeArc(inst, s.treeP, y) < inst.m * inst.n
    ensures MovedFlow(inst, s, mv)[EdgeArc(inst, s.treeP, y)] == s.flow[EdgeArc(inst, s.treeP, y)]
      + (if Decreasing(inst, s.treeP, y, false) then -mv.flowChg else mv.flowChg)
  {
    var h := Head(inst, mv.inArc);
    SidesApart(inst, s, mv, Entered(inst, s, mv), y);
    EdgeBasic(inst, s, y);
    PushPathAt(inst, s, AfterTail(inst, s, mv), h, mv.apex, -mv.Delta(), y);
  }

  /** An arc off the cycle keeps its flow. */
  lemma OffCycleFlow(inst: Instance, s: Sol, mv: Move, a: int)
    requires ValidBasis(inst, s) && 0 <= mv.inArc < inst.m * inst.n && 0 <= mv.apex < |s.treeP|
    requires mv.apex in Path(s.treeP, Rk(s), Tail(inst, mv.inArc))
    requires mv.apex in Path(s.treeP, Rk(s), Head(inst, mv.inArc))
    requires 0 <= a < inst.m * inst.n && a != mv.inArc
    requires forall y :: Below(s, Tail(inst, mv.inArc), mv.apex, y) ==> 0 <= y < |s.treeP| && EdgeArc(inst, s.treeP, y) != a
    requires forall y :: Below(s, Head(inst, mv.inArc), mv.apex, y) ==> 0 <= y < |s.treeP| && EdgeArc(inst, s.treeP, y) != a
    ensures MovedFlow(inst, s, mv)[a] == s.flow[a]
  {
    PushPathFrame(inst, s, Entered(inst, s, mv), Tail(inst, mv.inArc), mv.apex, mv.Delta(), a);
    PushPathFrame(inst, s, AfterTail(inst, s, mv), Head(inst, mv.inArc), mv.apex, -mv.Delta(), a);
  }

  /** After the exchange every arc's flow is non-negative, and the arcs that
      were non-basic, other than the entering one, keep their flows. */
  lemma ArcAfterMove(inst: Instance, s: Sol, mv: Move, a: int)
    requires ValidBasis(inst, s) && Fits(inst, s, mv) && s.arcStat[mv.inArc] != Basic
    requires mv.apex == Meet(s.treeP, Rk(s), Tail(inst, mv.inArc), Head(inst, mv.inArc))
    requires 0 <= a < inst.m * inst.n
    ensures MovedFlow(inst, s, mv)[a] >= 0
    ensures a != mv.inArc && s.arcStat[a] != Basic ==> MovedFlow(inst, s, mv)[a] == s.flow[a]
  {
    var t, h, p := Tail(inst, mv.inArc), Head(inst, mv.inArc), s.treeP;
    if a == mv.inArc {
      EnteringArcFlow(inst, s, mv);
    } else if y :| Below(s, t, mv.apex, y) && 0 <= y < |p| && EdgeArc(inst, p, y) == a {
      TailArcFlow(inst, s, mv, y);
      EdgeBasic(inst, s, y);
      if Decreasing(inst, p, y, true) {
        assert DecreasingOnCycle(inst, s, mv.inArc, mv.apex, y, true);
      }
    } else if y :| Below(s, h, mv.apex, y) && 0 <= y < |p| && EdgeArc(inst, p, y) == a {
      HeadArcFlow(inst, s, mv, y);
      EdgeBasic(inst, s, y);
      if Decreasing(inst, p, y, false) {
        assert DecreasingOnCycle(inst, s, mv.inArc, mv.apex, y, false);
      }
    } else {
      forall y | Below(s, t, mv.apex, y) ensures 0 <= y < |p| {
        BelowFacts(inst, s, t, mv.apex, y);
      }
      forall y | Below(s, h, mv.apex, y) ensures 0 <= y < |p| {
        BelowFacts(inst, s, h, mv.apex, y);
      }
      OffCycleFlow(inst, s, mv, a);
    }
  }

  /** The leaving arc, a decreasing arc of the cycle whose flow is the flow
      change, drops to zero. */
  lemma LeavingArcEmptied(inst: Instance, s: Sol, mv: Move)
    requires ValidBasis(inst, s) && Fits(inst, s, mv) && s.arcStat[mv.inArc] != Basic
    requires mv.apex == Meet(s.treeP, Rk(s), Tail(inst, mv.inArc), Head(inst, mv.inArc))
    requires 0 <= mv.outArc < inst.m * inst.n && mv.flowChg == s.flow[mv.outArc]
    requires exists x ::
      DecreasingOnCycle(inst, s, mv.inArc, mv.apex, x, mv.iPath) && EdgeArc(inst, s.treeP, x) == mv.outArc
    ensures MovedFlow(inst, s, mv)[mv.outArc] == 0
  {
    var x :| DecreasingOnCycle(inst, s, mv.inArc, mv.apex, x, mv.iPath) && EdgeArc(inst, s.treeP, x) == mv.outArc;
    if mv.iPath {
      TailArcFlow(inst, s, mv, x);
    } else {
      HeadArcFlow(inst, s, mv, x);
    }
  }
}
