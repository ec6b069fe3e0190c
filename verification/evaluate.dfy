/** Evaluation of a basis exchange (FCTPbas.compCostSav and its helpers):
    bringing a non-basic arc into the basis closes a cycle with the tree path
    between the arc's end nodes; the flow is pushed around that cycle until a
    basic arc drops to zero, and the cost change of doing so is the saving. */
module Evaluate {
  import opened FctpData
  import opened Trees
  import opened Solution
  import opened Basis

  /** The data of one basis exchange (Java's moveData).  Fixed costs are
      integers in this model, so the initial FCout of -1.0 becomes -1. */
  datatype Move = Move(
    inArc: int,
    inarcStat: Status,
    outArc: int,
    toUpper: bool,
    apex: int,
    flowChg: int,
    sign: int,
    iPath: bool,
    fcOut: int,
    saving: int)
  {
    /** The signed flow change on the entering arc, sign * flowChg; the sign
        is 1 (entering from the lower bound) or -1 (from the upper bound), so
        the product is written without multiplication. */
    function Delta(): int {
      if sign < 0 then -flowChg else flowChg
    }
  }

  /** The move record for entering arc inArc before its cycle is inspected.
      Without capacities the flow change starts unbounded (Integer.MAX_VALUE). */
  function NewMove(s: Sol, inArc: int): Move
    requires 0 <= inArc < |s.arcStat| && |s.flow| == |s.arcStat|
  {
    var upper := s.arcStat[inArc] == NonBasU;
    Move(inArc, s.arcStat[inArc], -1, false, -1,
      if upper then s.flow[inArc] else IntMax,
      if upper then -1 else 1,
      false, -1, 0)
  }

  /** Whether the flow on the tree arc between pred and i goes up when the
      cycle is traversed with the given sign. */
  predicate ToInc(inst: Instance, sign: int, pred: int)
  {
    if pred < inst.m then sign > 0 else sign < 0
  }

  /** Java's Chkarc: does the tree arc between pred and i become the new
      bottleneck of the cycle?  Returns the updated move and the answer. */
  function ChkArc(inst: Instance, s: Sol, mv: Move, sign: int, pred: int, i: int): (res: (Move, bool))
    requires inst.Valid() && s.m == inst.m && s.n == inst.n && s.Shaped()
    requires Adjacent(inst, i, pred)
    ensures res.1 ==> res.0.outArc == ArcBetween(inst, i, pred)
    ensures !res.1 ==> res.0 == mv
    ensures res.0.(outArc := mv.outArc, flowChg := mv.flowChg, toUpper := mv.toUpper, fcOut := mv.fcOut) == mv
  {
    ArcBetweenEnds(inst, i, pred);
    var arc := ArcBetween(inst, i, pred);
    var toInc := ToInc(inst, sign, pred);
    var delta := if toInc then IntMax else s.flow[arc];
    var bneck :=
      if toInc then delta < mv.flowChg
      else delta < mv.flowChg || (delta == mv.flowChg && inst.fcost[arc] > mv.fcOut);
    if bneck then
      (mv.(flowChg := delta, outArc := arc, toUpper := toInc,
           fcOut := if toInc then mv.fcOut else inst.fcost[arc]), true)
    else (mv, false)
  }

  /** The walk of compCostSav from both end nodes of the entering arc up the
      tree to their common ancestor, always stepping from the node with the
      smaller subtree and checking each arc passed for the bottleneck.  The
      two nested do-while loops of the source take exactly these steps. */
  function Walk(inst: Instance, s: Sol, mv: Move, i: int, j: int): (r: Move)
    requires ValidBasis(inst, s) && 0 <= i < |s.treeP| && 0 <= j < |s.treeP|
    ensures r.apex == Meet(s.treeP, Rk(s), i, j)
    ensures r.(outArc := mv.outArc, flowChg := mv.flowChg, toUpper := mv.toUpper,
      fcOut := mv.fcOut, iPath := mv.iPath, apex := mv.apex) == mv
    decreases 2 * |s.treeP| - s.treeT[i] - s.treeT[j]
  {
    SizeFacts(inst, s, i);
    SizeFacts(inst, s, j);
    if i == j then
      PathShape(s.treeP, Rk(s), i);
      mv.(apex := i)
    else if s.treeT[i] <= s.treeT[j] then
      WalkStepI(inst, s, i, j);
      var (mv', b) := ChkArc(inst, s, mv, mv.sign, s.treeP[i], i);
      Walk(inst, s, if b then mv'.(iPath := true) else mv', s.treeP[i], j)
    else
      WalkStepJ(inst, s, i, j);
      var (mv', b) := ChkArc(inst, s, mv, -mv.sign, s.treeP[j], j);
      Walk(inst, s, if b then mv'.(iPath := false) else mv', i, s.treeP[j])
  }

  /** Stepping from i keeps the meet: i has the smaller subtree, so it is no
      ancestor of j. */
  lemma WalkStepI(inst: Instance, s: Sol, i: int, j: int)
    requires ValidBasis(inst, s) && 0 <= i < |s.treeP| && 0 <= j < |s.treeP|
    requires i != j && s.treeT[i] <= s.treeT[j]
    ensures 0 < i && 0 <= s.treeP[i] < |s.treeP| && Adjacent(inst, i, s.treeP[i])
    ensures s.treeT[s.treeP[i]] > s.treeT[i]
    ensures i !in Path(s.treeP, Rk(s), j)
    ensures Meet(s.treeP, Rk(s), i, j) == Meet(s.treeP, Rk(s), s.treeP[i], j)
    ensures MeetIdx(s.treeP, Rk(s), i, j) == 1 + MeetIdx(s.treeP, Rk(s), s.treeP[i], j)
    ensures MeetIdx(s.treeP, Rk(s), j, i) == MeetIdx(s.treeP, Rk(s), j, s.treeP[i])
    ensures Path(s.treeP, Rk(s), i) == [i] + Path(s.treeP, Rk(s), s.treeP[i])
  {
    SizeFacts(inst, s, i);
    SizeFacts(inst, s, j);
    var p, r := s.treeP, Rk(s);
    if i in Path(p, r, j) {
      SubStrict(p, r, j, i);
    }
    MeetStep(p, r, i, j);
  }

  /** Stepping from j keeps the meet: j has the smaller subtree, so it is no
      ancestor of i. */
  lemma WalkStepJ(inst: Instance, s: Sol, i: int, j: int)
    requires ValidBasis(inst, s) && 0 <= i < |s.treeP| && 0 <= j < |s.treeP|
    requires i != j && s.treeT[i] > s.treeT[j]
    ensures 0 < j && 0 <= s.treeP[j] < |s.treeP| && Adjacent(inst, j, s.treeP[j])
    ensures s.treeT[s.treeP[j]] > s.treeT[j]
    ensures j !in Path(s.treeP, Rk(s), i)
    ensures Meet(s.treeP, Rk(s), i, j) == Meet(s.treeP, Rk(s), i, s.treeP[j])
    ensures MeetIdx(s.treeP, Rk(s), j, i) == 1 + MeetIdx(s.treeP, Rk(s), s.treeP[j], i)
    ensures MeetIdx(s.treeP, Rk(s), i, j) == MeetIdx(s.treeP, Rk(s), i, s.treeP[j])
    ensures Path(s.treeP, Rk(s), j) == [j] + Path(s.treeP, Rk(s), s.treeP[j])
  {
    SizeFacts(inst, s, i);
    SizeFacts(inst, s, j);
    var p, r := s.treeP, Rk(s);
    if j in Path(p, r, i) {
      SubStrict(p, r, i, j);
    }
    MeetStep(p, r, j, i);
  }

  // ---------------------------------------------------------------------------
  // The bottleneck found by the walk
  // ---------------------------------------------------------------------------

  /** The nodes whose parent arcs lie on x's side of the cycle closed by the
      arc between x and y: x's path up to, not including, the meet. */
  ghost function Side(s: Sol, x: int, y: int): seq<int>
    requires TreeEncoding(s.treeP, s.treeT) && 0 <= x < |s.treeP| && 0 <= y < |s.treeP|
  {
    Path(s.treeP, Rk(s), x)[..MeetIdx(s.treeP, Rk(s), x, y)]
  }

  /** Pushing flow into the entering arc (sign 1) lowers the flow of x's
      parent arc: on the tail's side when the arc leaves x for a customer
      parent, on the head's side when it comes from a supplier parent. */
  predicate Decreasing(inst: Instance, p: seq<int>, x: int, tailSide: bool)
    requires 0 <= x < |p|
  {
    if tailSide then p[x] >= inst.m else p[x] < inst.m
  }

  /** The parent arc of x does not beat the current bottleneck: its flow is
      no smaller, and on a tie its fixed cost is no larger. */
  ghost predicate Beaten(inst: Instance, s: Sol, mv: Move, x: int)
    requires ValidBasis(inst, s) && 0 < x < |s.treeP|
  {
    EdgeBasic(inst, s, x);
    var e := EdgeArc(inst, s.treeP, x);
    s.flow[e] >= mv.flowChg && (s.flow[e] == mv.flowChg ==> inst.fcost[e] <= mv.fcOut)
  }

  /** x's parent arc is the recorded leaving arc, found on the recorded side. */
  ghost predicate Chosen(inst: Instance, s: Sol, mv: Move, x: int, XI: seq<int>, XJ: seq<int>)
    requires ValidBasis(inst, s)
  {
    && (if mv.iPath then x in XI else x in XJ)
    && 0 < x < |s.treeP| && Decreasing(inst, s.treeP, x, mv.iPath)
    && EdgeArc(inst, s.treeP, x) == mv.outArc
    && (EdgeBasic(inst, s, x);
        s.flow[mv.outArc] == mv.flowChg && inst.fcost[mv.outArc] == mv.fcOut)
  }

  /** mv is the bottleneck among the decreasing parent arcs of the nodes XI
      (tail side) and XJ (head side) inspected so far. */
  ghost predicate Bneck(inst: Instance, s: Sol, mv: Move, XI: seq<int>, XJ: seq<int>)
    requires ValidBasis(inst, s)
  {
    && mv.sign == 1 && !mv.toUpper && mv.flowChg <= IntMax
    && (forall x :: x in XI ==> 0 < x < |s.treeP|)
    && (forall x :: x in XJ ==> 0 < x < |s.treeP|)
    && (forall x :: x in XI && Decreasing(inst, s.treeP, x, true) ==> Beaten(inst, s, mv, x))
    && (forall x :: x in XJ && Decreasing(inst, s.treeP, x, false) ==> Beaten(inst, s, mv, x))
    && (mv.outArc < 0 ==> mv.flowChg == IntMax && mv.fcOut == -1)
    && (mv.outArc >= 0 ==> exists x :: Chosen(inst, s, mv, x, XI, XJ))
  }

  /** A bottleneck that only got tighter still beats every arc the old one
      beat. */
  lemma BeatenMono(inst: Instance, s: Sol, mv: Move, mv2: Move, y: int)
    requires ValidBasis(inst, s) && 0 < y < |s.treeP|
    requires mv2.flowChg < mv.flowChg || (mv2.flowChg == mv.flowChg && mv2.fcOut >= mv.fcOut)
    requires Beaten(inst, s, mv, y)
    ensures Beaten(inst, s, mv2, y)
  {
    EdgeBasic(inst, s, y);
  }

  /** What one call of ChkArc on the parent arc e of x decides: an arc whose
      flow would grow never becomes the bottleneck; a decreasing one does
      exactly when it has less flow, or as much and a higher fixed cost. */
  lemma ChkArcFacts(inst: Instance, s: Sol, mv: Move, sign: int, x: int)
    requires ValidBasis(inst, s) && 0 < x < |s.treeP| && mv.flowChg <= IntMax
    requires sign == 1 || sign == -1
    ensures Adjacent(inst, x, s.treeP[x])
    ensures var (mv', b) := ChkArc(inst, s, mv, sign, s.treeP[x], x);
      var e := EdgeArc(inst, s.treeP, x);
      && 0 <= e < inst.m * inst.n
      && (ToInc(inst, sign, s.treeP[x]) ==> !b)
      && (b ==> mv'.flowChg == s.flow[e] && mv'.fcOut == inst.fcost[e] && !mv'.toUpper)
      && (b ==> mv'.flowChg < mv.flowChg || (mv'.flowChg == mv.flowChg && mv'.fcOut >= mv.fcOut))
      && (!ToInc(inst, sign, s.treeP[x]) ==> Beaten(inst, s, mv', x))
  {
    EdgeBasic(inst, s, x);
    FlowBound(inst, s, EdgeArc(inst, s.treeP, x));
  }

  /** Checking the parent arc of x on the tail side extends the bottleneck. */
  lemma ChkStepI(inst: Instance, s: Sol, mv: Move, XI: seq<int>, XJ: seq<int>, x: int)
    requires ValidBasis(inst, s) && Bneck(inst, s, mv, XI, XJ) && 0 < x < |s.treeP|
    ensures Adjacent(inst, x, s.treeP[x])
    ensures var (mv', b) := ChkArc(inst, s, mv, mv.sign, s.treeP[x], x);
      Bneck(inst, s, if b then mv'.(iPath := true) else mv', XI + [x], XJ)
  {
    ChkArcFacts(inst, s, mv, mv.sign, x);
    var (mv', b) := ChkArc(inst, s, mv, mv.sign, s.treeP[x], x);
    var mv2 := if b then mv'.(iPath := true) else mv';
    var XI' := XI + [x];
    forall y | y in XI' && Decreasing(inst, s.treeP, y, true)
      ensures Beaten(inst, s, mv2, y)
    {
      if y != x { BeatenMono(inst, s, mv, mv2, y); }
    }
    forall y | y in XJ && Decreasing(inst, s.treeP, y, false)
      ensures Beaten(inst, s, mv2, y)
    {
      BeatenMono(inst, s, mv, mv2, y);
    }
    if b {
      assert Chosen(inst, s, mv2, x, XI', XJ);
    } else if mv.outArc >= 0 {
      var w :| Chosen(inst, s, mv, w, XI, XJ);
      assert Chosen(inst, s, mv2, w, XI', XJ);
    }
  }

  /** Checking the parent arc of x on the head side extends the bottleneck. */
  lemma ChkStepJ(inst: Instance, s: Sol, mv: Move, XI: seq<int>, XJ: seq<int>, x: int)
    requires ValidBasis(inst, s) && Bneck(inst, s, mv, XI, XJ) && 0 < x < |s.treeP|
    ensures Adjacent(inst, x, s.treeP[x])
    ensures var (mv', b) := ChkArc(inst, s, mv, -mv.sign, s.treeP[x], x);
      Bneck(inst, s, if b then mv'.(iPath := false) else mv', XI, XJ + [x])
  {
    ChkArcFacts(inst, s, mv, -mv.sign, x);
    var (mv', b) := ChkArc(inst, s, mv, -mv.sign, s.treeP[x], x);
    var mv2 := if b then mv'.(iPath := false) else mv';
    var XJ' := XJ + [x];
    forall y | y in XI && Decreasing(inst, s.treeP, y, true)
      ensures Beaten(inst, s, mv2, y)
    {
      BeatenMono(inst, s, mv, mv2, y);
    }
    forall y | y in XJ' && Decreasing(inst, s.treeP, y, false)
      ensures Beaten(inst, s, mv2, y)
    {
      if y != x { BeatenMono(inst, s, mv, mv2, y); }
    }
    if b {
      assert Chosen(inst, s, mv2, x, XI, XJ');
    } else if mv.outArc >= 0 {
      var w :| Chosen(inst, s, mv, w, XI, XJ);
      assert Chosen(inst, s, mv2, w, XI, XJ');
    }
  }

  /** The bottleneck invariant only looks at the bottleneck fields. */
  lemma BneckFrame(inst: Instance, s: Sol, mv: Move, mv2: Move, XI: seq<int>, XJ: seq<int>)
    requires ValidBasis(inst, s) && Bneck(inst, s, mv, XI, XJ)
    requires mv2.outArc == mv.outArc && mv2.flowChg == mv.flowChg && mv2.fcOut == mv.fcOut
    requires mv2.iPath == mv.iPath && mv2.toUpper == mv.toUpper && mv2.sign == mv.sign
    ensures Bneck(inst, s, mv2, XI, XJ)
  {
    forall y | y in XI && Decreasing(inst, s.treeP, y, true)
      ensures Beaten(inst, s, mv2, y)
    {
      BeatenMono(inst, s, mv, mv2, y);
    }
    forall y | y in XJ && Decreasing(inst, s.treeP, y, false)
      ensures Beaten(inst, s, mv2, y)
    {
      BeatenMono(inst, s, mv, mv2, y);
    }
    if mv.outArc >= 0 {
      var w :| Chosen(inst, s, mv, w, XI, XJ);
      assert Chosen(inst, s, mv2, w, XI, XJ);
    }
  }

  /** Stepping up from x removes x from the front of its side. */
  lemma SideStep(s: Sol, x: int, y: int)
    requires TreeEncoding(s.treeP, s.treeT) && 0 < x < |s.treeP| && 0 <= y < |s.treeP|
    requires 0 <= s.treeP[x] < |s.treeP|
    requires Path(s.treeP, Rk(s), x) == [x] + Path(s.treeP, Rk(s), s.treeP[x])
    requires MeetIdx(s.treeP, Rk(s), x, y) == 1 + MeetIdx(s.treeP, Rk(s), s.treeP[x], y)
    ensures Side(s, x, y) == [x] + Side(s, s.treeP[x], y)
  {
    var p, r := s.treeP, Rk(s);
    PrefixCons(Path(p, r, x), x, Path(p, r, p[x]), MeetIdx(p, r, p[x], y));
  }

  /** The whole walk from i and j inspects exactly the parent arcs of both
      sides of the cycle, so it ends with their bottleneck. */
  lemma {:induction false} WalkBneck(inst: Instance, s: Sol, mv: Move, i: int, j: int, XI: seq<int>, XJ: seq<int>)
    requires ValidBasis(inst, s) && 0 <= i < |s.treeP| && 0 <= j < |s.treeP|
    requires Bneck(inst, s, mv, XI, XJ)
    ensures Bneck(inst, s, Walk(inst, s, mv, i, j), XI + Side(s, i, j), XJ + Side(s, j, i))
    decreases 2 * |s.treeP| - s.treeT[i] - s.treeT[j]
  {
    var p, r := s.treeP, Rk(s);
    if i == j {
      PathShape(p, r, i);
      assert MeetIdx(p, r, i, i) == 0;
      assert XI + Side(s, i, j) == XI;
      assert XJ + Side(s, j, i) == XJ;
      assert Walk(inst, s, mv, i, j) == mv.(apex := i);
      BneckFrame(inst, s, mv, mv.(apex := i), XI, XJ);
    } else if s.treeT[i] <= s.treeT[j] {
      WalkBneckI(inst, s, mv, i, j, XI, XJ);
    } else {
      WalkBneckJ(inst, s, mv, i, j, XI, XJ);
    }
  }

  lemma {:induction false} WalkBneckI(inst: Instance, s: Sol, mv: Move, i: int, j: int, XI: seq<int>, XJ: seq<int>)
    requires ValidBasis(inst, s) && 0 <= i < |s.treeP| && 0 <= j < |s.treeP|
    requires Bneck(inst, s, mv, XI, XJ) && i != j && s.treeT[i] <= s.treeT[j]
    ensures Bneck(inst, s, Walk(inst, s, mv, i, j), XI + Side(s, i, j), XJ + Side(s, j, i))
    decreases 2 * |s.treeP| - s.treeT[i] - s.treeT[j], 0
  {
    var p, r := s.treeP, Rk(s);
    WalkStepI(inst, s, i, j);
    ChkStepI(inst, s, mv, XI, XJ, i);
    var (mv', b) := ChkArc(inst, s, mv, mv.sign, p[i], i);
    var mv2 := if b then mv'.(iPath := true) else mv';
    assert Walk(inst, s, mv, i, j) == Walk(inst, s, mv2, p[i], j);
    WalkBneck(inst, s, mv2, p[i], j, XI + [i], XJ);
    SideStep(s, i, j);
    ConcatAssoc(XI, [i], Side(s, p[i], j));
    assert Side(s, j, p[i]) == Side(s, j, i);
  }

  lemma {:induction false} WalkBneckJ(inst: Instance, s: Sol, mv: Move, i: int, j: int, XI: seq<int>, XJ: seq<int>)
    requires ValidBasis(inst, s) && 0 <= i < |s.treeP| && 0 <= j < |s.treeP|
    requires Bneck(inst, s, mv, XI, XJ) && i != j && s.treeT[i] > s.treeT[j]
    ensures Bneck(inst, s, Walk(inst, s, mv, i, j), XI + Side(s, i, j), XJ + Side(s, j, i))
    decreases 2 * |s.treeP| - s.treeT[i] - s.treeT[j], 0
  {
    var p, r := s.treeP, Rk(s);
    WalkStepJ(inst, s, i, j);
    ChkStepJ(inst, s, mv, XI, XJ, j);
    var (mv', b) := ChkArc(inst, s, mv, -mv.sign, p[j], j);
    var mv2 := if b then mv'.(iPath := false) else mv';
    assert Walk(inst, s, mv, i, j) == Walk(inst, s, mv2, i, p[j]);
    WalkBneck(inst, s, mv2, i, p[j], XI, XJ + [j]);
    SideStep(s, j, i);
    ConcatAssoc(XJ, [j], Side(s, p[j], i));
    assert Side(s, i, p[j]) == Side(s, i, j);
  }

  // ---------------------------------------------------------------------------
  // Pushing flow around the cycle and the resulting saving
  // ---------------------------------------------------------------------------

  /** The flow the tree arc between pred and its child i gets when delta
      more units are pushed from i's side of the path (SaveOnArc's nflow). */
  function NewArcFlow(inst: Instance, flow: seq<int>, pred: int, i: int, delta: int): int
    requires inst.m >= 1 && inst.n >= 1 && |flow| == inst.m * inst.n && Adjacent(inst, i, pred)
  {
    ArcBetweenEnds(inst, i, pred);
    var a := ArcBetween(inst, i, pred);
    if pred < inst.m then flow[a] + delta else flow[a] - delta
  }

  /** The flows after that one arc has changed. */
  function Push(inst: Instance, flow: seq<int>, pred: int, i: int, delta: int): (g: seq<int>)
    requires inst.m >= 1 && inst.n >= 1 && |flow| == inst.m * inst.n && Adjacent(inst, i, pred)
    ensures |g| == |flow|
  {
    ArcBetweenEnds(inst, i, pred);
    flow[ArcBetween(inst, i, pred) := NewArcFlow(inst, flow, pred, i, delta)]
  }

  /** Java's SaveOnArc: the cost saved on the arc between pred and i when
      its flow becomes NewArcFlow.  Whenever both flows are non-negative this
      is the drop of the arc's cost. */
  function SaveOnArc(inst: Instance, s: Sol, pred: int, i: int, delta: int): (sav: int)
    requires inst.Valid() && s.m == inst.m && s.n == inst.n && s.Shaped() && Adjacent(inst, i, pred)
    ensures var a := ArcBetween(inst, i, pred);
      var nf := NewArcFlow(inst, s.flow, pred, i, delta);
      0 <= a < inst.m * inst.n &&
      (s.flow[a] >= 0 && nf >= 0 ==> sav == ArcCost(inst, a, s.flow[a]) - ArcCost(inst, a, nf))
  {
    ArcBetweenEnds(inst, i, pred);
    var a := ArcBetween(inst, i, pred);
    var nflow := NewArcFlow(inst, s.flow, pred, i, delta);
    var sav := (s.flow[a] - nflow) * inst.tcost[a];
    if s.flow[a] > 0 then
      (if nflow == 0 then sav + inst.fcost[a] else sav)
    else if nflow > 0 then sav - inst.fcost[a]
    else sav
  }

  /** The nodes strictly between x (included) and its ancestor apex (excluded):
      those whose parent arcs the walk from x to apex passes. */
  ghost predicate Below(s: Sol, x: int, apex: int, y: int)
    requires TreeEncoding(s.treeP, s.treeT) && 0 <= x < |s.treeP| && 0 <= apex < |s.treeP|
  {
    y in Path(s.treeP, Rk(s), x) && y !in Path(s.treeP, Rk(s), apex)
  }

  /** One step from x towards its ancestor apex. */
  lemma UpStep(inst: Instance, s: Sol, x: int, apex: int)
    requires ValidBasis(inst, s) && 0 <= x < |s.treeP| && apex in Path(s.treeP, Rk(s), x) && x != apex
    ensures 0 < x && 0 <= s.treeP[x] < |s.treeP| && Adjacent(inst, x, s.treeP[x])
    ensures 0 <= apex < |s.treeP| && apex in Path(s.treeP, Rk(s), s.treeP[x])
    ensures Rk(s)[s.treeP[x]] < Rk(s)[x]
    ensures Below(s, x, apex, x)
    ensures forall y :: Below(s, s.treeP[x], apex, y) ==> Below(s, x, apex, y)
  {
    var p, r := s.treeP, Rk(s);
    PathShape(p, r, x);
    if x == 0 {
      PathOfRoot(p, r);
    }
    ParentOnPath(p, r, x);
    AncestorRank(p, r, apex, x);
    if x in Path(p, r, apex) {
      AncestorAntisym(p, r, x, apex);
    }
  }

  /** The flows after pushing delta along the tree path from x up to apex
      (one loop of DoMove). */
  function PushPath(inst: Instance, s: Sol, flow: seq<int>, x: int, apex: int, delta: int): (g: seq<int>)
    requires ValidBasis(inst, s) && |flow| == inst.m * inst.n
    requires 0 <= x < |s.treeP| && apex in Path(s.treeP, Rk(s), x)
    ensures |g| == |flow|
    decreases Rk(s)[x]
  {
    if x == apex then flow
    else
      UpStep(inst, s, x, apex);
      PushPath(inst, s, Push(inst, flow, s.treeP[x], x, delta), s.treeP[x], apex, delta)
  }

  /** The saving summed over the tree path from x up to apex (one loop of
      compCostSav). */
  function PathSaving(inst: Instance, s: Sol, x: int, apex: int, delta: int): int
    requires ValidBasis(inst, s)
    requires 0 <= x < |s.treeP| && apex in Path(s.treeP, Rk(s), x)
    decreases Rk(s)[x]
  {
    if x == apex then 0
    else
      UpStep(inst, s, x, apex);
      SaveOnArc(inst, s, s.treeP[x], x, delta) + PathSaving(inst, s, s.treeP[x], apex, delta)
  }

  /** The cost saved on the entering arc itself when its flow changes by
      flowChg: it gains flow from a lower bound (sign 1) or, at an upper
      bound (sign -1), loses flow and possibly drops to zero. */
  function EnterSaving(inst: Instance, s: Sol, inArc: int, sign: int, flowChg: int): (sav: int)
    requires inst.Valid() && s.m == inst.m && s.n == inst.n && s.Shaped()
    requires 0 <= inArc < inst.m * inst.n
    ensures sign >= 0 && s.flow[inArc] == 0 && flowChg > 0 ==>
      sav == ArcCost(inst, inArc, 0) - ArcCost(inst, inArc, flowChg)
  {
    if sign < 0 then
      inst.tcost[inArc] * flowChg + (if flowChg == s.flow[inArc] then inst.fcost[inArc] else 0)
    else -inst.fcost[inArc] - flowChg * inst.tcost[inArc]
  }

  /** The saving of the cycle closed by inArc once the walk w has found its
      apex and flow change: the entering arc, the tail's side and the head's
      side. */
  function CycleSaving(inst: Instance, s: Sol, inArc: int, w: Move): int
    requires ValidBasis(inst, s) && 0 <= inArc < inst.m * inst.n
    requires w.apex in Path(s.treeP, Rk(s), Tail(inst, inArc))
    requires w.apex in Path(s.treeP, Rk(s), Head(inst, inArc))
  {
    var delta := w.Delta();
    EnterSaving(inst, s, inArc, w.sign, w.flowChg)
      + PathSaving(inst, s, Tail(inst, inArc), w.apex, delta)
      + PathSaving(inst, s, Head(inst, inArc), w.apex, -delta)
  }

  /** CycleSaving spelled out. */
  lemma CycleSavingUnfold(inst: Instance, s: Sol, inArc: int, w: Move)
    requires ValidBasis(inst, s) && 0 <= inArc < inst.m * inst.n
    requires w.apex in Path(s.treeP, Rk(s), Tail(inst, inArc))
    requires w.apex in Path(s.treeP, Rk(s), Head(inst, inArc))
    ensures CycleSaving(inst, s, inArc, w) == EnterSaving(inst, s, inArc, w.sign, w.flowChg)
      + PathSaving(inst, s, Tail(inst, inArc), w.apex, w.Delta())
      + PathSaving(inst, s, Head(inst, inArc), w.apex, -w.Delta())
  {
  }

  /** The walk of compCostSav from the end nodes of inArc. */
  function CycleWalk(inst: Instance, s: Sol, inArc: int): (w: Move)
    requires ValidBasis(inst, s) && 0 <= inArc < inst.m * inst.n
    ensures 0 <= Tail(inst, inArc) < |s.treeP| && 0 <= Head(inst, inArc) < |s.treeP|
    ensures w.apex == Meet(s.treeP, Rk(s), Tail(inst, inArc), Head(inst, inArc))
    ensures 0 <= w.apex < |s.treeP|
    ensures w.apex in Path(s.treeP, Rk(s), Tail(inst, inArc))
    ensures w.apex in Path(s.treeP, Rk(s), Head(inst, inArc))
    ensures w.inArc == inArc && w.sign == 1 && w.saving == 0
  {
    var t, h := Tail(inst, inArc), Head(inst, inArc);
    MeetCommon(s.treeP, Rk(s), t, h, t);
    Walk(inst, s, NewMove(s, inArc), t, h)
  }

  /** Java's compCostSav: walk the cycle closed by inArc to find the apex and
      the leaving arc, then, unless the flow change is zero, add up the cost
      change of pushing the flow change around the cycle. */
  function CompCostSav(inst: Instance, s: Sol, inArc: int): (mv: Move)
    requires ValidBasis(inst, s) && 0 <= inArc < inst.m * inst.n
    ensures mv.inArc == inArc && mv.sign == 1
    ensures 0 <= mv.apex < |s.treeP|
    ensures mv.apex in Path(s.treeP, Rk(s), Tail(inst, inArc))
    ensures mv.apex in Path(s.treeP, Rk(s), Head(inst, inArc))
  {
    var w := CycleWalk(inst, s, inArc);
    if w.flowChg > 0 then w.(saving := CycleSaving(inst, s, inArc, w)) else w
  }

  /** The flows once the entering arc has changed by the signed flow change
      (DoMove's first flow update). */
  function Entered(inst: Instance, s: Sol, mv: Move): (g: seq<int>)
    requires inst.Valid() && s.m == inst.m && s.n == inst.n && s.Shaped() && 0 <= mv.inArc < inst.m * inst.n
    ensures |g| == |s.flow|
  {
    s.flow[mv.inArc := s.flow[mv.inArc] + mv.Delta()]
  }

  /** The flows once the tail's side of the cycle has been pushed as well. */
  function AfterTail(inst: Instance, s: Sol, mv: Move): (g: seq<int>)
    requires ValidBasis(inst, s) && 0 <= mv.inArc < inst.m * inst.n
    requires mv.apex in Path(s.treeP, Rk(s), Tail(inst, mv.inArc))
    ensures |g| == |s.flow|
  {
    PushPath(inst, s, Entered(inst, s, mv), Tail(inst, mv.inArc), mv.apex, mv.Delta())
  }

  /** The flows after the exchange evaluated in mv is carried out: the
      entering arc changes by the flow change, then both tree paths from its
      end nodes up to the apex (DoMove's flow update). */
  function MovedFlow(inst: Instance, s: Sol, mv: Move): (g: seq<int>)
    requires ValidBasis(inst, s) && 0 <= mv.inArc < inst.m * inst.n
    requires mv.apex in Path(s.treeP, Rk(s), Tail(inst, mv.inArc))
    requires mv.apex in Path(s.treeP, Rk(s), Head(inst, mv.inArc))
    ensures |g| == |s.flow|
  {
    PushPath(inst, s, AfterTail(inst, s, mv), Head(inst, mv.inArc), mv.apex, -mv.Delta())
  }


  // ---------------------------------------------------------------------------
  // Lemmas about the cycle
  // ---------------------------------------------------------------------------

  /** A side of the cycle holds exactly the nodes of x's path below the meet. */
  lemma SideMem(s: Sol, x: int, y: int, z: int)
    requires TreeEncoding(s.treeP, s.treeT) && 0 <= x < |s.treeP| && 0 <= y < |s.treeP|
    ensures 0 <= Meet(s.treeP, Rk(s), x, y) < |s.treeP|
    ensures z in Side(s, x, y) <==> Below(s, x, Meet(s.treeP, Rk(s), x, y), z)
  {
    var p, r := s.treeP, Rk(s);
    var P := Path(p, r, x);
    var k := MeetIdx(p, r, x, y);
    var a := P[k];
    PathShape(p, r, x);
    PathDistinctIndex(p, r, x, a, k);
    AncestorPath(p, r, x, a);
    assert Path(p, r, a) == P[k..];
    if z in P[..k] {
      var i := IndexOf(P[..k], z);
      assert P[i] == z;
      forall i' | k <= i' < |P| ensures P[i'] != z {
        PathDistinct(p, r, x, i, i');
      }
    }
    if z in P && z !in P[k..] {
      var i := IndexOf(P, z);
      assert P[..k][i] == z;
    }
  }

  /** Pushing along a path leaves every arc alone that is not the parent arc
      of a node below the apex. */
  lemma {:induction false} PushPathFrame(inst: Instance, s: Sol, g: seq<int>, x: int, apex: int, delta: int, a: int)
    requires ValidBasis(inst, s) && |g| == inst.m * inst.n
    requires 0 <= x < |s.treeP| && 0 <= apex < |s.treeP| && apex in Path(s.treeP, Rk(s), x) && 0 <= a < |g|
    requires forall y :: Below(s, x, apex, y) ==> 0 <= y < |s.treeP| && EdgeArc(inst, s.treeP, y) != a
    ensures PushPath(inst, s, g, x, apex, delta)[a] == g[a]
    decreases Rk(s)[x]
  {
    if x != apex {
      UpStep(inst, s, x, apex);
      PushPathFrame(inst, s, Push(inst, g, s.treeP[x], x, delta), s.treeP[x], apex, delta, a);
    }
  }

  /** Pushing zero units changes nothing. */
  lemma {:induction false} PushPathZero(inst: Instance, s: Sol, g: seq<int>, x: int, apex: int, delta: int)
    requires ValidBasis(inst, s) && |g| == inst.m * inst.n
    requires 0 <= x < |s.treeP| && apex in Path(s.treeP, Rk(s), x) && delta == 0
    ensures PushPath(inst, s, g, x, apex, delta) == g
    decreases Rk(s)[x]
  {
    if x != apex {
      UpStep(inst, s, x, apex);
      assert Push(inst, g, s.treeP[x], x, delta) == g;
      PushPathZero(inst, s, g, s.treeP[x], apex, delta);
    }
  }

  /** The saving summed along a path is the drop in total cost caused by
      pushing along it, as long as the path's arcs still hold their original
      flows and none of them is driven negative. */
  lemma {:induction false} PathSavingCost(inst: Instance, s: Sol, g: seq<int>, x: int, apex: int, delta: int)
    requires ValidBasis(inst, s) && |g| == inst.m * inst.n
    requires 0 <= x < |s.treeP| && 0 <= apex < |s.treeP| && apex in Path(s.treeP, Rk(s), x)
    requires forall y :: Below(s, x, apex, y) ==>
      && 0 < y < |s.treeP| && Adjacent(inst, y, s.treeP[y])
      && 0 <= EdgeArc(inst, s.treeP, y) < |g|
      && g[EdgeArc(inst, s.treeP, y)] == s.flow[EdgeArc(inst, s.treeP, y)]
      && NewArcFlow(inst, s.flow, s.treeP[y], y, delta) >= 0
    ensures Cost(inst, g) - Cost(inst, PushPath(inst, s, g, x, apex, delta)) == PathSaving(inst, s, x, apex, delta)
    decreases Rk(s)[x]
  {
    if x != apex {
      var p := s.treeP;
      UpStep(inst, s, x, apex);
      var e := EdgeArc(inst, p, x);
      var g' := Push(inst, g, p[x], x, delta);
      EdgeBasic(inst, s, x);
      FlowBound(inst, s, e);
      assert NewArcFlow(inst, g, p[x], x, delta) == NewArcFlow(inst, s.flow, p[x], x, delta);
      CostUpdate(inst, g, e, NewArcFlow(inst, g, p[x], x, delta));
      forall y | Below(s, p[x], apex, y)
        ensures g'[EdgeArc(inst, p, y)] == s.flow[EdgeArc(inst, p, y)]
      {
        if y == x {
          AncestorRank(s.treeP, Rk(s), x, p[x]);
        }
        EdgeInjective(inst, s, x, y);
      }
      PathSavingCost(inst, s, g', p[x], apex, delta);
    }
  }

  /** The evaluation's move is the bottleneck of both sides of the cycle. */
  lemma EvalBneck(inst: Instance, s: Sol, inArc: int)
    requires ValidBasis(inst, s) && 0 <= inArc < inst.m * inst.n && s.arcStat[inArc] != Basic
    ensures 0 <= Tail(inst, inArc) < |s.treeP| && 0 <= Head(inst, inArc) < |s.treeP|
    ensures Bneck(inst, s, CompCostSav(inst, s, inArc),
      Side(s, Tail(inst, inArc), Head(inst, inArc)), Side(s, Head(inst, inArc), Tail(inst, inArc)))
  {
    var t, h := Tail(inst, inArc), Head(inst, inArc);
    var w0 := NewMove(s, inArc);
    assert Bneck(inst, s, w0, [], []);
    WalkBneck(inst, s, w0, t, h, [], []);
    var w := CycleWalk(inst, s, inArc);
    assert [] + Side(s, t, h) == Side(s, t, h);
    assert [] + Side(s, h, t) == Side(s, h, t);
    BneckFrame(inst, s, w, CompCostSav(inst, s, inArc), Side(s, t, h), Side(s, h, t));
  }

  /** x's parent arc lies on the cycle of inArc, on the tail's side (tailSide)
      or the head's side, and loses flow when flow is pushed into inArc. */
  ghost predicate DecreasingOnCycle(inst: Instance, s: Sol, inArc: int, apex: int, x: int, tailSide: bool)
    requires ValidBasis(inst, s) && 0 <= inArc < inst.m * inst.n && 0 <= apex < |s.treeP|
  {
    && Below(s, if tailSide then Tail(inst, inArc) else Head(inst, inArc), apex, x)
    && 0 < x < |s.treeP| && Decreasing(inst, s.treeP, x, tailSide)
  }

  /** The evaluation of a non-basic arc finds the cycle's apex (the meet of
      the arc's end nodes) and a leaving arc: a decreasing arc of the cycle,
      on the side iPath records, that beats every decreasing arc of the cycle
      (least flow, and highest fixed cost among those tied); it never moves
      to an upper bound. */
  lemma CycleBottleneck(inst: Instance, s: Sol, inArc: int)
    requires ValidBasis(inst, s) && 0 <= inArc < inst.m * inst.n && s.arcStat[inArc] != Basic
    ensures var mv := CompCostSav(inst, s, inArc);
      && mv.apex == Meet(s.treeP, Rk(s), Tail(inst, inArc), Head(inst, inArc))
      && !mv.toUpper && 0 <= mv.outArc < inst.m * inst.n
      && mv.flowChg == s.flow[mv.outArc] && mv.fcOut == inst.fcost[mv.outArc]
      && (exists x :: DecreasingOnCycle(inst, s, inArc, mv.apex, x, mv.iPath) && EdgeArc(inst, s.treeP, x) == mv.outArc)
    ensures var mv := CompCostSav(inst, s, inArc);
      forall x, side :: DecreasingOnCycle(inst, s, inArc, mv.apex, x, side) ==> Beaten(inst, s, mv, x)
  {
    CycleLeaves(inst, s, inArc);
    var mv := CompCostSav(inst, s, inArc);
    forall x, side | DecreasingOnCycle(inst, s, inArc, mv.apex, x, side)
      ensures Beaten(inst, s, mv, x)
    {
      CycleBeaten(inst, s, inArc, x, side);
    }
  }

  /** Every decreasing arc of the cycle is beaten by the evaluation's move. */
  lemma CycleBeaten(inst: Instance, s: Sol, inArc: int, x: int, side: bool)
    requires ValidBasis(inst, s) && 0 <= inArc < inst.m * inst.n && s.arcStat[inArc] != Basic
    requires DecreasingOnCycle(inst, s, inArc, CompCostSav(inst, s, inArc).apex, x, side)
    ensures Beaten(inst, s, CompCostSav(inst, s, inArc), x)
  {
    var t, h := Tail(inst, inArc), Head(inst, inArc);
    EvalBneck(inst, s, inArc);
    MeetSymmetric(s.treeP, Rk(s), t, h);
    if side { SideMem(s, t, h, x); } else { SideMem(s, h, t, x); }
  }

  /** The evaluation finds a leaving arc on the cycle. */
  lemma CycleLeaves(inst: Instance, s: Sol, inArc: int)
    requires ValidBasis(inst, s) && 0 <= inArc < inst.m * inst.n && s.arcStat[inArc] != Basic
    ensures var mv := CompCostSav(inst, s, inArc);
      && mv.apex == Meet(s.treeP, Rk(s), Tail(inst, inArc), Head(inst, inArc))
      && !mv.toUpper && 0 <= mv.outArc < inst.m * inst.n
      && mv.flowChg == s.flow[mv.outArc] && mv.fcOut == inst.fcost[mv.outArc]
      && (exists x :: DecreasingOnCycle(inst, s, inArc, mv.apex, x, mv.iPath) && EdgeArc(inst, s.treeP, x) == mv.outArc)
  {
    var t, h := Tail(inst, inArc), Head(inst, inArc);
    var mv := CompCostSav(inst, s, inArc);
    var apex := mv.apex;
    // some arc of the cycle decreases, so a leaving arc exists
    var x0 := if t != apex then t else h;
    assert x0 != apex;
    UpStep(inst, s, x0, apex);
    assert DecreasingOnCycle(inst, s, inArc, apex, x0, x0 == t);
    CycleBeaten(inst, s, inArc, x0, x0 == t);
    EdgeBasic(inst, s, x0);
    FlowBound(inst, s, EdgeArc(inst, s.treeP, x0));
    EvalBneck(inst, s, inArc);
    var x :| Chosen(inst, s, mv, x, Side(s, t, h), Side(s, h, t));
    MeetSymmetric(s.treeP, Rk(s), t, h);
    if mv.iPath { SideMem(s, t, h, x); } else { SideMem(s, h, t, x); }
    assert DecreasingOnCycle(inst, s, inArc, apex, x, mv.iPath);
    EdgeBasic(inst, s, x);
  }


  /** A node below the apex on a path is a non-root node. */
  lemma BelowFacts(inst: Instance, s: Sol, x: int, apex: int, y: int)
    requires ValidBasis(inst, s) && 0 <= x < |s.treeP| && 0 <= apex < |s.treeP|
    requires Below(s, x, apex, y)
    ensures 0 < y < |s.treeP| && Adjacent(inst, y, s.treeP[y])
  {
    PathShape(s.treeP, Rk(s), x);
    PathShape(s.treeP, Rk(s), apex);
    var i := IndexOf(Path(s.treeP, Rk(s), x), y);
  }

  /** Every decreasing arc of the cycle of inArc through apex carries at
      least d units. */
  ghost predicate CycleFlowsAtLeast(inst: Instance, s: Sol, inArc: int, apex: int, d: int)
    requires ValidBasis(inst, s) && 0 <= inArc < inst.m * inst.n && 0 <= apex < |s.treeP|
  {
    forall x, side :: DecreasingOnCycle(inst, s, inArc, apex, x, side) ==>
      (EdgeBasic(inst, s, x); s.flow[EdgeArc(inst, s.treeP, x)] >= d)
  }

  /** A move entering from the lower bound whose apex is a common ancestor
      of its entering arc's end nodes and whose flow change fits every
      decreasing arc of the cycle. */
  ghost predicate Fits(inst: Instance, s: Sol, mv: Move)
    requires ValidBasis(inst, s)
  {
    && 0 <= mv.inArc < inst.m * inst.n && mv.sign == 1 && mv.flowChg >= 0
    && 0 <= mv.apex < |s.treeP|
    && mv.apex in Path(s.treeP, Rk(s), Tail(inst, mv.inArc))
    && mv.apex in Path(s.treeP, Rk(s), Head(inst, mv.inArc))
    && CycleFlowsAtLeast(inst, s, mv.inArc, mv.apex, mv.flowChg)
  }

  /** Pushing the flow change along the side of one end node costs what that
      side's PathSaving says, given flows that agree with the solution there. */
  lemma SideCost(inst: Instance, s: Sol, mv: Move, g: seq<int>, tailSide: bool, x: int, d: int)
    requires ValidBasis(inst, s) && Fits(inst, s, mv)
    requires |g| == inst.m * inst.n
    requires x == if tailSide then Tail(inst, mv.inArc) else Head(inst, mv.inArc)
    requires d == if tailSide then mv.Delta() else -mv.Delta()
    requires forall y :: Below(s, x, mv.apex, y) ==>
      0 < y < |s.treeP| && (EdgeBasic(inst, s, y); g[EdgeArc(inst, s.treeP, y)] == s.flow[EdgeArc(inst, s.treeP, y)])
    ensures 0 <= x < |s.treeP|
    ensures Cost(inst, g) - Cost(inst, PushPath(inst, s, g, x, mv.apex, d)) == PathSaving(inst, s, x, mv.apex, d)
  {
    forall y | Below(s, x, mv.apex, y)
      ensures 0 < y < |s.treeP| && Adjacent(inst, y, s.treeP[y])
      ensures 0 <= EdgeArc(inst, s.treeP, y) < |g|
      ensures NewArcFlow(inst, s.flow, s.treeP[y], y, d) >= 0
    {
      BelowFacts(inst, s, x, mv.apex, y);
      EdgeBasic(inst, s, y);
      if Decreasing(inst, s.treeP, y, tailSide) {
        assert DecreasingOnCycle(inst, s, mv.inArc, mv.apex, y, tailSide);
      }
    }
    PathSavingCost(inst, s, g, x, mv.apex, d);
  }

  /** The tail's side of the cycle saves what pushing the flow change along
      it drops from the cost, starting from the flows with the entering arc
      raised. */
  lemma TailSideCost(inst: Instance, s: Sol, mv: Move)
    requires ValidBasis(inst, s) && Fits(inst, s, mv)
    requires s.arcStat[mv.inArc] != Basic
    ensures 0 <= Tail(inst, mv.inArc) < |s.treeP|
    ensures Cost(inst, Entered(inst, s, mv)) - Cost(inst, AfterTail(inst, s, mv))
      == PathSaving(inst, s, Tail(inst, mv.inArc), mv.apex, mv.Delta())
  {
    var f0 := Entered(inst, s, mv);
    var t := Tail(inst, mv.inArc);
    forall y | Below(s, t, mv.apex, y)
      ensures 0 < y < |s.treeP| && (EdgeBasic(inst, s, y); f0[EdgeArc(inst, s.treeP, y)] == s.flow[EdgeArc(inst, s.treeP, y)])
    {
      BelowFacts(inst, s, t, mv.apex, y);
      EdgeBasic(inst, s, y);
    }
    SideCost(inst, s, mv, f0, true, t, mv.Delta());
  }

  /** Pushing along the tail's side leaves the arcs of the head's side alone:
      the two sides share no node. */
  lemma SidesApart(inst: Instance, s: Sol, mv: Move, g: seq<int>, y: int)
    requires ValidBasis(inst, s) && Fits(inst, s, mv)
    requires mv.apex == Meet(s.treeP, Rk(s), Tail(inst, mv.inArc), Head(inst, mv.inArc))
    requires |g| == inst.m * inst.n
    requires Below(s, Head(inst, mv.inArc), mv.apex, y)
    ensures 0 < y < |s.treeP| && 0 <= EdgeArc(inst, s.treeP, y) < |g|
    ensures PushPath(inst, s, g, Tail(inst, mv.inArc), mv.apex, mv.Delta())[EdgeArc(inst, s.treeP, y)]
      == g[EdgeArc(inst, s.treeP, y)]
  {
    var t, h := Tail(inst, mv.inArc), Head(inst, mv.inArc);
    BelowFacts(inst, s, h, mv.apex, y);
    EdgeBasic(inst, s, y);
    forall z | Below(s, t, mv.apex, z)
      ensures 0 <= z < |s.treeP| && EdgeArc(inst, s.treeP, z) != EdgeArc(inst, s.treeP, y)
    {
      BelowFacts(inst, s, t, mv.apex, z);
      MeetCommon(s.treeP, Rk(s), t, h, y);
      EdgeInjective(inst, s, y, z);
    }
    PushPathFrame(inst, s, g, t, mv.apex, mv.Delta(), EdgeArc(inst, s.treeP, y));
  }

  /** After the tail's side has been pushed, the arcs of the head's side
      still hold the solution's flows. */
  lemma HeadSideUntouched(inst: Instance, s: Sol, mv: Move, y: int)
    requires ValidBasis(inst, s) && Fits(inst, s, mv)
    requires s.arcStat[mv.inArc] != Basic
    requires mv.apex == Meet(s.treeP, Rk(s), Tail(inst, mv.inArc), Head(inst, mv.inArc))
    requires Below(s, Head(inst, mv.inArc), mv.apex, y)
    ensures 0 < y < |s.treeP| && 0 <= EdgeArc(inst, s.treeP, y) < inst.m * inst.n
    ensures AfterTail(inst, s, mv)[EdgeArc(inst, s.treeP, y)] == s.flow[EdgeArc(inst, s.treeP, y)]
  {
    SidesApart(inst, s, mv, Entered(inst, s, mv), y);
    EdgeBasic(inst, s, y);
  }

  /** The head's side of the cycle saves what pushing the negated flow change
      along it drops from the cost, after the tail's side has been pushed. */
  lemma HeadSideCost(inst: Instance, s: Sol, mv: Move)
    requires ValidBasis(inst, s) && Fits(inst, s, mv)
    requires s.arcStat[mv.inArc] != Basic
    requires mv.apex == Meet(s.treeP, Rk(s), Tail(inst, mv.inArc), Head(inst, mv.inArc))
    ensures 0 <= Head(inst, mv.inArc) < |s.treeP|
    ensures Cost(inst, AfterTail(inst, s, mv)) - Cost(inst, MovedFlow(inst, s, mv))
      == PathSaving(inst, s, Head(inst, mv.inArc), mv.apex, -mv.Delta())
  {
    var f1 := AfterTail(inst, s, mv);
    var h := Head(inst, mv.inArc);
    forall y | Below(s, h, mv.apex, y)
      ensures 0 < y < |s.treeP| && (EdgeBasic(inst, s, y); f1[EdgeArc(inst, s.treeP, y)] == s.flow[EdgeArc(inst, s.treeP, y)])
    {
      HeadSideUntouched(inst, s, mv, y);
    }
    SideCost(inst, s, mv, f1, false, h, -mv.Delta());
  }

  /** A move with no flow change leaves every flow as it is. */
  lemma SavingZero(inst: Instance, s: Sol, mv: Move)
    requires ValidBasis(inst, s) && 0 <= mv.inArc < inst.m * inst.n
    requires mv.apex in Path(s.treeP, Rk(s), Tail(inst, mv.inArc))
    requires mv.apex in Path(s.treeP, Rk(s), Head(inst, mv.inArc))
    requires mv.flowChg == 0
    ensures MovedFlow(inst, s, mv) == s.flow
  {
    assert Entered(inst, s, mv) == s.flow;
    PushPathZero(inst, s, Entered(inst, s, mv), Tail(inst, mv.inArc), mv.apex, mv.Delta());
    PushPathZero(inst, s, AfterTail(inst, s, mv), Head(inst, mv.inArc), mv.apex, -mv.Delta());
  }


  /** A move with a positive flow change saves exactly the drop of the total
      cost it causes. */
  lemma SavingPositive(inst: Instance, s: Sol, mv: Move)
    requires ValidBasis(inst, s) && Fits(inst, s, mv) && mv.flowChg > 0
    requires s.arcStat[mv.inArc] != Basic
    requires mv.apex == Meet(s.treeP, Rk(s), Tail(inst, mv.inArc), Head(inst, mv.inArc))
    ensures CycleSaving(inst, s, mv.inArc, mv) == Cost(inst, s.flow) - Cost(inst, MovedFlow(inst, s, mv))
  {
    CycleSavingUnfold(inst, s, mv.inArc, mv);
    EnterCost(inst, s, mv);
    CostUpdate(inst, s.flow, mv.inArc, s.flow[mv.inArc] + mv.Delta());
    ArcCostCong(inst, mv.inArc, s.flow[mv.inArc] + mv.Delta(), mv.flowChg);
    ArcCostCong(inst, mv.inArc, s.flow[mv.inArc], 0);
    TailSideCost(inst, s, mv);
    HeadSideCost(inst, s, mv);
  }


  /** Equal flows cost the same (stated apart so that callers need not
      unfold the cost of an arc). */
  lemma ArcCostCong(inst: Instance, a: int, f: int, g: int)
    requires 0 <= a < |inst.tcost| && a < |inst.fcost| && f == g
    ensures ArcCost(inst, a, f) == ArcCost(inst, a, g)
  {
  }

  /** The entering arc saves the drop of its own cost as it goes from zero
      to the flow change. */
  lemma EnterCost(inst: Instance, s: Sol, mv: Move)
    requires ValidBasis(inst, s) && Fits(inst, s, mv) && mv.flowChg > 0
    requires s.arcStat[mv.inArc] != Basic
    ensures s.flow[mv.inArc] == 0 && mv.Delta() == mv.flowChg
    ensures EnterSaving(inst, s, mv.inArc, mv.sign, mv.flowChg)
      == ArcCost(inst, mv.inArc, 0) - ArcCost(inst, mv.inArc, mv.flowChg)
  {
  }


  /** The saving compCostSav reports for a non-basic arc is exactly the drop
      of the total cost when the exchange is carried out (zero for a
      degenerate exchange, which moves no flow). */
  lemma SavingIsCostDrop(inst: Instance, s: Sol, inArc: int)
    requires ValidBasis(inst, s) && 0 <= inArc < inst.m * inst.n && s.arcStat[inArc] != Basic
    ensures var mv := CompCostSav(inst, s, inArc);
      mv.saving == Cost(inst, s.flow) - Cost(inst, MovedFlow(inst, s, mv))
  {
    var mv := CompCostSav(inst, s, inArc);
    EvalFits(inst, s, inArc);
    EvalSaving(inst, s, inArc);
    if mv.flowChg == 0 {
      SavingZero(inst, s, mv);
    } else {
      CycleLeaves(inst, s, inArc);
      SavingPositive(inst, s, mv);
    }
  }

  /** The evaluation's move fits its cycle. */
  lemma EvalFits(inst: Instance, s: Sol, inArc: int)
    requires ValidBasis(inst, s) && 0 <= inArc < inst.m * inst.n && s.arcStat[inArc] != Basic
    ensures Fits(inst, s, CompCostSav(inst, s, inArc))
  {
    var mv := CompCostSav(inst, s, inArc);
    CycleBottleneck(inst, s, inArc);
    forall x, side | DecreasingOnCycle(inst, s, inArc, mv.apex, x, side)
      ensures (EdgeBasic(inst, s, x); s.flow[EdgeArc(inst, s.treeP, x)] >= mv.flowChg)
    {
      EdgeBasic(inst, s, x);
    }
  }

  /** The evaluation's move carries the saving of its cycle, or zero when its
      flow change is zero. */
  lemma EvalSaving(inst: Instance, s: Sol, inArc: int)
    requires ValidBasis(inst, s) && 0 <= inArc < inst.m * inst.n
    ensures var mv := CompCostSav(inst, s, inArc);
      mv.saving == (if mv.flowChg > 0 then CycleSaving(inst, s, inArc, mv) else 0)
  {
    var w := CycleWalk(inst, s, inArc);
    var mv := CompCostSav(inst, s, inArc);
    assert mv.apex == w.apex && mv.sign == w.sign && mv.flowChg == w.flowChg;
  }
}
