/** The move-evaluation state of FCTPbas: the current solution together with
    the move most recently evaluated (trialMove) and the move remembered for
    the next commit (storedMove); both are null until first set. */
module MoveEngine {
  import opened FctpData
  import opened Trees
  import opened Solution
  import opened Basis
  import opened Evaluate
  import opened Cycle
  import opened BasisExchange

  datatype Engine = Engine(sol: Sol, trial: Option<Move>, stored: Option<Move>)

  /** getCostSav(arc): a basic arc saves nothing and is not evaluated; for a
      non-basic arc the evaluation becomes the trial move and its saving is
      the drop of the total cost the exchange would bring. */
  function GetCostSav(inst: Instance, e: Engine, arc: int): (r: (int, Engine))
    requires ValidBasis(inst, e.sol) && 0 <= arc < inst.m * inst.n
    ensures r.1.sol == e.sol && r.1.stored == e.stored
    ensures e.sol.arcStat[arc] == Basic ==> r.0 == 0 && r.1.trial == e.trial
    ensures e.sol.arcStat[arc] != Basic ==>
      && r.1.trial == Some(CompCostSav(inst, e.sol, arc))
      && r.0 == Cost(inst, e.sol.flow) - Cost(inst, MovedFlow(inst, e.sol, CompCostSav(inst, e.sol, arc)))
  {
    if e.sol.arcStat[arc] == Basic then (0, e)
    else
      var mv := CompCostSav(inst, e.sol, arc);
      SavingIsCostDrop(inst, e.sol, arc);
      (mv.saving, e.(trial := Some(mv)))
  }

  /** getCostSav(i, j): the arc id i*n+j is evaluated when it is in range;
      otherwise nothing is evaluated and the saving is 0. */
  function GetCostSavIJ(inst: Instance, e: Engine, i: int, j: int): (r: (int, Engine))
    requires ValidBasis(inst, e.sol)
    ensures !(0 <= i * inst.n + j < inst.m * inst.n) ==> r == (0, e)
    ensures r.1.sol == e.sol && r.1.stored == e.stored
    ensures r.0 != 0 ==>
      var a := i * inst.n + j;
      && 0 <= a < inst.m * inst.n && e.sol.arcStat[a] != Basic
      && r.0 == Cost(inst, e.sol.flow) - Cost(inst, MovedFlow(inst, e.sol, CompCostSav(inst, e.sol, a)))
  {
    var a := i * inst.n + j;
    if 0 <= a < inst.m * inst.n then GetCostSav(inst, e, a) else (0, e)
  }

  /** isDegenerated: the trial move changes no flow. */
  function IsDegenerated(e: Engine): bool
    requires e.trial.Some?
  {
    e.trial.value.flowChg == 0
  }

  /** getLeavingArc: the arc the trial move takes out of the basis. */
  function GetLeavingArc(e: Engine): int
    requires e.trial.Some?
  {
    e.trial.value.outArc
  }

  /** The trial move left by evaluating a non-basic arc is degenerate
      exactly when carrying it out leaves every flow as it is. */
  lemma DegenerateIffNoFlowChange(inst: Instance, e: Engine, arc: int)
    requires ValidBasis(inst, e.sol) && 0 <= arc < inst.m * inst.n && e.sol.arcStat[arc] != Basic
    ensures var e2 := GetCostSav(inst, e, arc).1;
      IsDegenerated(e2) <==> MovedFlow(inst, e.sol, e2.trial.value) == e.sol.flow
  {
    var s, mv := e.sol, CompCostSav(inst, e.sol, arc);
    EnteringArcFlow(inst, s, mv);
    if mv.flowChg == 0 {
      assert Entered(inst, s, mv) == s.flow;
      PushPathZero(inst, s, Entered(inst, s, mv), Tail(inst, arc), mv.apex, mv.Delta());
      PushPathZero(inst, s, AfterTail(inst, s, mv), Head(inst, arc), mv.apex, -mv.Delta());
    }
  }

  /** The leaving arc of the trial move left by evaluating a non-basic arc
      is a basic arc other than the entering one. */
  lemma LeavingArcBasic(inst: Instance, e: Engine, arc: int)
    requires ValidBasis(inst, e.sol) && 0 <= arc < inst.m * inst.n && e.sol.arcStat[arc] != Basic
    ensures var e2 := GetCostSav(inst, e, arc).1;
      && 0 <= GetLeavingArc(e2) < inst.m * inst.n && GetLeavingArc(e2) != arc
      && e.sol.arcStat[GetLeavingArc(e2)] == Basic
  {
    MovePivot(inst, e.sol, arc);
    EdgeBasic(inst, e.sol, LeavingNode(inst, e.sol, CompCostSav(inst, e.sol, arc)));
  }

  /** RememberMove: the trial move becomes the stored move. */
  function RememberMove(e: Engine): (r: Engine)
    requires e.trial.Some?
    ensures r.stored == e.trial && r.trial == e.trial && r.sol == e.sol
  {
    e.(stored := e.trial)
  }

  /** DoMove as FCTPbas writes it: it commits the stored move, but chooses
      between its two status updates by the trial move's leaving arc.  When
      the trial move has a leaving arc (every evaluation of a non-basic arc
      leaves one), this is the basis exchange; otherwise only the entering
      arc's status changes, to NONBASU, while flows and tree still move. */
  method CommitStored(inst: Instance, e: Engine) returns (e2: Engine)
    requires ValidBasis(inst, e.sol) && e.trial.Some? && e.stored.Some?
    requires var mv := e.stored.value;
      0 <= mv.inArc < inst.m * inst.n && e.sol.arcStat[mv.inArc] != Basic
      && mv == CompCostSav(inst, e.sol, mv.inArc)
    ensures e2.trial == e.trial && e2.stored == e.stored
    ensures 0 <= e.stored.value.outArc < inst.m * inst.n
    ensures e2.sol.flow == MovedFlow(inst, e.sol, e.stored.value)
    ensures e2.sol.totalCost == e.sol.totalCost - e.stored.value.saving
    ensures e.trial.value.outArc >= 0 ==>
      && ValidBasis(inst, e2.sol)
      && e2.sol.arcStat == e.sol.arcStat[e.stored.value.inArc := Basic][e.stored.value.outArc := NonBas0]
    ensures e.trial.value.outArc < 0 ==> e2.sol.arcStat == e.sol.arcStat[e.stored.value.inArc := NonBasU]
  {
    var mv := e.stored.value;
    var s2 := DoMove(inst, e.sol, mv);
    if e.trial.value.outArc < 0 {
      s2 := s2.(arcStat := e.sol.arcStat[mv.inArc := if mv.sign > 0 then NonBasU else NonBas0]);
    }
    e2 := e.(sol := s2);
  }

  /** executeMove(arc): evaluate a non-basic arc, remember the move and
      commit it.  The result is a valid basis whose total cost dropped by
      the returned saving, which is the true drop of the cost. */
  method ExecuteMove(inst: Instance, e: Engine, arc: int) returns (e2: Engine, saving: int)
    requires ValidBasis(inst, e.sol) && 0 <= arc < inst.m * inst.n && e.sol.arcStat[arc] != Basic
    ensures ValidBasis(inst, e2.sol)
    ensures e2.trial == e2.stored == Some(CompCostSav(inst, e.sol, arc))
    ensures e2.sol.totalCost == e.sol.totalCost - saving
    ensures Cost(inst, e2.sol.flow) == Cost(inst, e.sol.flow) - saving
    ensures forall v :: 0 <= v < inst.m + inst.n ==> Balance(inst, e2.sol.flow, v) == Balance(inst, e.sol.flow, v)
    ensures 0 <= CompCostSav(inst, e.sol, arc).outArc < inst.m * inst.n
    ensures CompCostSav(inst, e.sol, arc).outArc != arc && e.sol.arcStat[CompCostSav(inst, e.sol, arc).outArc] == Basic
    ensures e2.sol.arcStat == e.sol.arcStat[arc := Basic][CompCostSav(inst, e.sol, arc).outArc := NonBas0]
  {
    var r := GetCostSav(inst, e, arc);
    saving := r.0;
    var e1 := RememberMove(r.1);
    LeavingArcBasic(inst, e, arc);
    e2 := CommitStored(inst, e1);
    forall v | 0 <= v < inst.m + inst.n
      ensures Balance(inst, e2.sol.flow, v) == Balance(inst, e.sol.flow, v)
    {
      Conservation(inst, e.sol, CompCostSav(inst, e.sol, arc), v);
    }
  }
}
