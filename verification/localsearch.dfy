/** The local-search sweeps of FCTPls: best-accept and first-accept descent
    over basic exchanges, and the dispatch between them.  A move is taken
    only when its saving exceeds the tolerance tol; since costs are
    integers every accepted move lowers the total cost by at least tol + 1. */
module LocalSearch {
  import opened FctpData
  import opened Trees
  import opened Solution
  import opened Basis
  import opened Evaluate
  import opened Cycle
  import opened MoveEngine

  /** The drop of the total cost that bringing arc a into the basis brings. */
  ghost function Drop(inst: Instance, s: Sol, a: int): int
    requires ValidBasis(inst, s) && 0 <= a < inst.m * inst.n
  {
    Cost(inst, s.flow) - Cost(inst, MovedFlow(inst, s, CompCostSav(inst, s, a)))
  }

  /** Arc a offers no move worth more than tol. */
  ghost predicate Fine(inst: Instance, s: Sol, tol: int, a: int)
    requires ValidBasis(inst, s) && 0 <= a < inst.m * inst.n
  {
    s.arcStat[a] == Basic || Drop(inst, s, a) <= tol
  }

  /** No exchange lowers the cost by more than tol. */
  ghost predicate LocalOptimum(inst: Instance, s: Sol, tol: int)
    requires ValidBasis(inst, s)
  {
    forall a :: 0 <= a < inst.m * inst.n ==> Fine(inst, s, tol, a)
  }

  /** The stored move is the evaluation of a non-basic arc of the current
      solution. */
  ghost predicate StoredFresh(inst: Instance, e: Engine)
    requires ValidBasis(inst, e.sol)
  {
    && e.stored.Some?
    && 0 <= e.stored.value.inArc < inst.m * inst.n
    && e.sol.arcStat[e.stored.value.inArc] != Basic
    && e.stored.value == CompCostSav(inst, e.sol, e.stored.value.inArc)
  }

  /** What the sweeps keep: a valid basis, the same node balances, the
      same gap between totalCost and the cost of the flows, and a cost that
      has dropped by at least tol + 1 per committed move. */
  ghost predicate Descent(inst: Instance, s0: Sol, s: Sol, tol: int, moves: int)
  {
    && ValidBasis(inst, s0) && ValidBasis(inst, s)
    && Cost(inst, s.flow) + moves * (tol + 1) <= Cost(inst, s0.flow)
    && s.totalCost - Cost(inst, s.flow) == s0.totalCost - Cost(inst, s0.flow)
    && (forall v :: 0 <= v < inst.m + inst.n ==> Balance(inst, s.flow, v) == Balance(inst, s0.flow, v))
  }

  /** RememberMove followed by DoMove, with a trial move that has a leaving
      arc: the stored exchange is carried out and the cost drops by its
      saving. */
  method Commit(inst: Instance, e: Engine) returns (e2: Engine)
    requires ValidBasis(inst, e.sol) && StoredFresh(inst, e)
    requires e.trial.Some? && e.trial.value.outArc >= 0
    ensures ValidBasis(inst, e2.sol)
    ensures Cost(inst, e2.sol.flow) == Cost(inst, e.sol.flow) - Drop(inst, e.sol, e.stored.value.inArc)
    ensures e2.sol.totalCost - Cost(inst, e2.sol.flow) == e.sol.totalCost - Cost(inst, e.sol.flow)
    ensures forall v :: 0 <= v < inst.m + inst.n ==> Balance(inst, e2.sol.flow, v) == Balance(inst, e.sol.flow, v)
  {
    var mv := e.stored.value;
    SavingIsCostDrop(inst, e.sol, mv.inArc);
    e2 := CommitStored(inst, e);
    forall v | 0 <= v < inst.m + inst.n
      ensures Balance(inst, e2.sol.flow, v) == Balance(inst, e.sol.flow, v)
    {
      Conservation(inst, e.sol, mv, v);
    }
  }

  lemma DescentStep(inst: Instance, s0: Sol, s: Sol, s2: Sol, tol: int, moves: int)
    requires Descent(inst, s0, s, tol, moves) && ValidBasis(inst, s2)
    requires Cost(inst, s2.flow) + tol + 1 <= Cost(inst, s.flow)
    requires s2.totalCost - Cost(inst, s2.flow) == s.totalCost - Cost(inst, s.flow)
    requires forall v :: 0 <= v < inst.m + inst.n ==> Balance(inst, s2.flow, v) == Balance(inst, s.flow, v)
    ensures Descent(inst, s0, s2, tol, moves + 1)
  {
  }

  /** What the scan of a best pass knows before arc: bestSav is tol or the
      saving of the remembered arc, the first arc of strictly greatest
      saving so far, which exceeds tol. */
  ghost predicate BestSoFar(inst: Instance, s: Sol, tol: int, arc: int, improve: bool, bestSav: int, e: Engine)
    requires ValidBasis(inst, s)
  {
    && 0 <= arc <= inst.m * inst.n && e.sol == s
    && (!improve ==> bestSav == tol)
    && (improve ==> StoredFresh(inst, e) && e.trial.Some? && e.trial.value.outArc >= 0)
    && (improve ==> e.stored.value.inArc < arc && bestSav == Drop(inst, s, e.stored.value.inArc) && bestSav > tol)
    && (improve ==> forall a :: 0 <= a < e.stored.value.inArc && s.arcStat[a] != Basic ==> Drop(inst, s, a) < bestSav)
    && (forall a :: 0 <= a < arc && s.arcStat[a] != Basic ==> Drop(inst, s, a) <= bestSav)
  }

  /** An evaluated arc that does not beat the best saving only replaces
      the trial move. */
  lemma BestKeep(inst: Instance, s: Sol, tol: int, arc: int, improve: bool, bestSav: int, e: Engine, e2: Engine)
    requires ValidBasis(inst, s) && arc < inst.m * inst.n && BestSoFar(inst, s, tol, arc, improve, bestSav, e)
    requires s.arcStat[arc] != Basic && Drop(inst, s, arc) <= bestSav
    requires e2.sol == s && e2.stored == e.stored && e2.trial.Some? && e2.trial.value.outArc >= 0
    ensures BestSoFar(inst, s, tol, arc + 1, improve, bestSav, e2)
  {
  }

  /** An evaluated arc that beats the best saving becomes the stored move. */
  lemma BestTake(inst: Instance, s: Sol, tol: int, arc: int, improve: bool, bestSav: int, e: Engine, e2: Engine)
    requires ValidBasis(inst, s) && arc < inst.m * inst.n && BestSoFar(inst, s, tol, arc, improve, bestSav, e)
    requires s.arcStat[arc] != Basic && Drop(inst, s, arc) > bestSav
    requires e2.sol == s && e2.stored == e2.trial == Some(CompCostSav(inst, s, arc)) && e2.trial.value.outArc >= 0
    ensures BestSoFar(inst, s, tol, arc + 1, true, Drop(inst, s, arc), e2)
  {
    var d := Drop(inst, s, arc);
    assert e2.stored.value.inArc == arc;
    assert d > tol by {
      if improve {
        assert bestSav > tol;
      }
    }
    forall a | 0 <= a < arc + 1 && s.arcStat[a] != Basic
      ensures Drop(inst, s, a) <= d
    {
      if a != arc {
        assert Drop(inst, s, a) <= bestSav;
      }
    }
  }

  /** A basic arc is passed over. */
  lemma BestSkip(inst: Instance, s: Sol, tol: int, arc: int, improve: bool, bestSav: int, e: Engine)
    requires ValidBasis(inst, s) && arc < inst.m * inst.n && BestSoFar(inst, s, tol, arc, improve, bestSav, e)
    requires s.arcStat[arc] == Basic
    ensures BestSoFar(inst, s, tol, arc + 1, improve, bestSav, e)
  {
  }

  /** One arc of the scan of a best pass. */
  method BestStep(inst: Instance, s: Sol, tol: int, arc: int, improve: bool, bestSav: int, e: Engine)
    returns (improve2: bool, bestSav2: int, e2: Engine)
    requires ValidBasis(inst, s) && arc < inst.m * inst.n && BestSoFar(inst, s, tol, arc, improve, bestSav, e)
    ensures BestSoFar(inst, s, tol, arc + 1, improve2, bestSav2, e2)
  {
    improve2, bestSav2, e2 := improve, bestSav, e;
    if e.sol.arcStat[arc] != Basic {
      var r := GetCostSav(inst, e, arc);
      LeavingArcBasic(inst, e, arc);
      e2 := r.1;
      if r.0 > bestSav {
        bestSav2 := r.0;
        improve2 := true;
        e2 := RememberMove(e2);
        BestTake(inst, s, tol, arc, improve, bestSav, e, e2);
      } else {
        BestKeep(inst, s, tol, arc, improve, bestSav, e, e2);
      }
    } else {
      BestSkip(inst, s, tol, arc, improve, bestSav, e);
    }
  }

  /** One pass of LS_best_acc: scan the non-basic arcs in ascending order
      and remember the first one whose saving is strictly the greatest and
      above tol.  Only the engine's trial and stored moves change. */
  method BestPass(inst: Instance, e: Engine, tol: int) returns (improve: bool, e2: Engine)
    requires ValidBasis(inst, e.sol)
    ensures e2.sol == e.sol
    ensures improve <==> !LocalOptimum(inst, e.sol, tol)
    ensures improve ==> StoredFresh(inst, e2) && e2.trial.Some? && e2.trial.value.outArc >= 0
    ensures improve ==> var b := e2.stored.value.inArc;
      && Drop(inst, e.sol, b) > tol
      && (forall a :: 0 <= a < inst.m * inst.n && e.sol.arcStat[a] != Basic ==> Drop(inst, e.sol, a) <= Drop(inst, e.sol, b))
      && (forall a :: 0 <= a < b && e.sol.arcStat[a] != Basic ==> Drop(inst, e.sol, a) < Drop(inst, e.sol, b))
  {
    var bestSav := tol;
    improve := false;
    e2 := e;
    var arc := 0;
    while arc < inst.m * inst.n
      invariant BestSoFar(inst, e.sol, tol, arc, improve, bestSav, e2)
    {
      improve, bestSav, e2 := BestStep(inst, e.sol, tol, arc, improve, bestSav, e2);
      arc := arc + 1;
    }
    if improve {
      assert !Fine(inst, e.sol, tol, e2.stored.value.inArc);
    }
  }

  /** LS_best_acc: repeat best passes, committing the remembered move after
      every pass that found one, until a pass finds none.  The result is a
      local optimum, and iterCount counts the committed moves. */
  method BestAccept(inst: Instance, e: Engine, tol: int) returns (e2: Engine, iterCount: int)
    requires ValidBasis(inst, e.sol) && tol >= 0
    ensures Descent(inst, e.sol, e2.sol, tol, iterCount) && iterCount >= 0
    ensures LocalOptimum(inst, e2.sol, tol)
  {
    e2 := e;
    iterCount := 0;
    var improve := true;
    CostNonNeg(inst, e.sol.flow);
    while improve
      invariant Descent(inst, e.sol, e2.sol, tol, iterCount) && iterCount >= 0
      invariant !improve ==> LocalOptimum(inst, e2.sol, tol)
      decreases Cost(inst, e2.sol.flow) + if improve then 1 else 0
    {
      CostNonNeg(inst, e2.sol.flow);
      improve, e2 := BestPass(inst, e2, tol);
      if improve {
        var e3 := Commit(inst, e2);
        DescentStep(inst, e.sol, e2.sol, e3.sol, tol, iterCount);
        e2 := e3;
        iterCount := iterCount + 1;
        CostNonNeg(inst, e2.sol.flow);
      }
    }
  }

  /** The arc k places before arc on the circle of the N arcs, for arc in
      0..N and k below N. */
  function Back(arc: int, k: int, N: int): (b: int)
    requires 0 <= arc <= N && 0 <= k < N
    ensures 0 <= b < N
    ensures b == arc - 1 - k || b == arc - 1 - k + N
  {
    if arc - 1 - k >= 0 then arc - 1 - k else arc - 1 - k + N
  }

  /** The arcs that offer no move worth more than tol. */
  ghost function FineSet(inst: Instance, s: Sol, tol: int): set<int>
    requires ValidBasis(inst, s)
  {
    set a | 0 <= a < inst.m * inst.n && Fine(inst, s, tol, a)
  }

  /** The cnt places before arc on the circle of N lie in F. */
  ghost predicate BackIn(F: set<int>, N: int, arc: int, cnt: int)
    requires 0 <= arc <= N && cnt <= N
  {
    forall k :: 0 <= k < cnt ==> Back(arc, k, N) in F
  }

  /** The arcs checked since the last commit: the cnt arcs before arc. */
  ghost predicate CheckedBack(inst: Instance, s: Sol, tol: int, arc: int, cnt: int)
    requires ValidBasis(inst, s) && 0 <= arc <= inst.m * inst.n && cnt <= inst.m * inst.n
  {
    BackIn(FineSet(inst, s, tol), inst.m * inst.n, arc, cnt)
  }

  lemma BackInStep(F: set<int>, N: int, arc: int, cnt: int)
    requires 0 <= arc < N && 0 <= cnt < N && BackIn(F, N, arc, cnt) && arc in F
    ensures BackIn(F, N, arc + 1, cnt + 1)
  {
    var a1 := arc + 1;
    forall k | 0 <= k < cnt + 1
      ensures Back(a1, k, N) in F
    {
      if k > 0 {
        assert Back(a1, k, N) == Back(arc, k - 1, N);
      }
    }
  }

  lemma CheckedStep(inst: Instance, s: Sol, tol: int, arc: int, cnt: int)
    requires ValidBasis(inst, s) && 0 <= arc < inst.m * inst.n && 0 <= cnt < inst.m * inst.n
    requires CheckedBack(inst, s, tol, arc, cnt) && Fine(inst, s, tol, arc)
    ensures CheckedBack(inst, s, tol, arc + 1, cnt + 1)
  {
    BackInStep(FineSet(inst, s, tol), inst.m * inst.n, arc, cnt);
  }

  lemma BackInWrap(F: set<int>, N: int, cnt: int)
    requires 0 <= cnt <= N && BackIn(F, N, N, cnt)
    ensures BackIn(F, N, 0, cnt)
  {
    forall k | 0 <= k < cnt
      ensures Back(0, k, N) in F
    {
      assert Back(0, k, N) == Back(N, k, N);
    }
  }

  /** The circle closes: counting back from N is counting back from 0. */
  lemma CheckedWrap(inst: Instance, s: Sol, tol: int, cnt: int)
    requires ValidBasis(inst, s) && 0 <= cnt <= inst.m * inst.n
    requires CheckedBack(inst, s, tol, inst.m * inst.n, cnt)
    ensures CheckedBack(inst, s, tol, 0, cnt)
  {
    BackInWrap(FineSet(inst, s, tol), inst.m * inst.n, cnt);
  }

  lemma BackInAll(F: set<int>, N: int, arc: int)
    requires 0 <= arc <= N && BackIn(F, N, arc, N)
    ensures forall a :: 0 <= a < N ==> a in F
  {
    forall a | 0 <= a < N
      ensures a in F
    {
      var k := if a < arc then arc - 1 - a else arc - 1 - a + N;
      assert Back(arc, k, N) == a;
    }
  }

  /** A full round of checks leaves no arc unchecked. */
  lemma CheckedAll(inst: Instance, s: Sol, tol: int, arc: int)
    requires ValidBasis(inst, s) && 0 <= arc <= inst.m * inst.n
    requires CheckedBack(inst, s, tol, arc, inst.m * inst.n)
    ensures LocalOptimum(inst, s, tol)
  {
    var F := FineSet(inst, s, tol);
    BackInAll(F, inst.m * inst.n, arc);
    forall a | 0 <= a < inst.m * inst.n
      ensures Fine(inst, s, tol, a)
    {
      assert a in F;
    }
  }

  /** Java's arc %= narcs on an arc counter that never exceeds narcs. */
  lemma ModOnce(arc: int, N: int)
    requires 0 <= arc <= N && N >= 1
    ensures arc % N == if arc == N then 0 else arc
  {
    if arc == N {
      assert arc % N == (1 * N) % N;
    }
  }

  /** The arc at position arc % N, as LS_first_acc sees it: evaluate it if
      it is non-basic and commit the move at once when it saves more than
      tol. */
  method FirstStep(inst: Instance, e: Engine, tol: int, arc: int) returns (e2: Engine, moved: bool)
    requires ValidBasis(inst, e.sol) && 0 <= arc < inst.m * inst.n
    ensures ValidBasis(inst, e2.sol)
    ensures !moved ==> e2.sol == e.sol && Fine(inst, e.sol, tol, arc)
    ensures moved ==> Cost(inst, e2.sol.flow) + tol + 1 <= Cost(inst, e.sol.flow)
    ensures moved ==> e2.sol.totalCost - Cost(inst, e2.sol.flow) == e.sol.totalCost - Cost(inst, e.sol.flow)
    ensures moved ==> forall v :: 0 <= v < inst.m + inst.n ==> Balance(inst, e2.sol.flow, v) == Balance(inst, e.sol.flow, v)
  {
    e2 := e;
    moved := false;
    if e.sol.arcStat[arc] != Basic {
      var r := GetCostSav(inst, e, arc);
      LeavingArcBasic(inst, e, arc);
      e2 := r.1;
      if r.0 > tol {
        e2 := RememberMove(e2);
        e2 := Commit(inst, e2);
        moved := true;
      }
    }
  }

  /** LS_first_acc: scan the arcs circularly from start, committing every
      move that saves more than tol, and stop once a whole round of m*n
      consecutive arcs brought no commit.  iterCount is one more than the
      number of commits. */
  method FirstAccept(inst: Instance, e: Engine, tol: int, start: int) returns (e2: Engine, iterCount: int)
    requires ValidBasis(inst, e.sol) && tol >= 0 && 0 <= start < inst.m * inst.n
    ensures iterCount >= 1 && Descent(inst, e.sol, e2.sol, tol, iterCount - 1)
    ensures LocalOptimum(inst, e2.sol, tol)
  {
    var N := inst.m * inst.n;
    var cnt := 0;
    var arc := start;
    iterCount := 1;
    e2 := e;
    CostNonNeg(inst, e.sol.flow);
    assert BackIn(FineSet(inst, e.sol, tol), N, arc, 0);
    while cnt < N
      invariant FirstLoop(inst, e.sol, e2, tol, arc, cnt, iterCount)
      decreases Cost(inst, e2.sol.flow), N - cnt
    {
      e2, arc, cnt, iterCount := FirstRound(inst, e.sol, e2, tol, arc, cnt, iterCount);
    }
    CheckedAll(inst, e2.sol, tol, arc);
  }

  /** What the first-accept scan keeps between two arcs. */
  ghost predicate FirstLoop(inst: Instance, s0: Sol, e: Engine, tol: int, arc: int, cnt: int, iterCount: int)
  {
    && 0 <= arc <= inst.m * inst.n && 0 <= cnt <= inst.m * inst.n && tol >= 0
    && iterCount >= 1 && Descent(inst, s0, e.sol, tol, iterCount - 1)
    && Cost(inst, e.sol.flow) >= 0
    && CheckedBack(inst, e.sol, tol, arc, cnt)
  }

  /** One arc of the first-accept scan: after a commit the count of arcs
      checked restarts and the cost has dropped; otherwise one more arc is
      checked. */
  method FirstRound(inst: Instance, s0: Sol, e: Engine, tol: int, arc: int, cnt: int, iterCount: int)
    returns (e2: Engine, arc2: int, cnt2: int, iterCount2: int)
    requires FirstLoop(inst, s0, e, tol, arc, cnt, iterCount) && cnt < inst.m * inst.n
    ensures FirstLoop(inst, s0, e2, tol, arc2, cnt2, iterCount2)
    ensures Cost(inst, e2.sol.flow) < Cost(inst, e.sol.flow)
      || (Cost(inst, e2.sol.flow) == Cost(inst, e.sol.flow) && cnt2 == cnt + 1)
  {
    FirstWrap(inst, s0, e, tol, arc, cnt, iterCount);
    var a := arc % (inst.m * inst.n);
    var moved;
    e2, moved := FirstStep(inst, e, tol, a);
    arc2 := a + 1;
    if moved {
      cnt2 := 0;
      iterCount2 := iterCount + 1;
      FirstMoved(inst, s0, e, e2, tol, a, cnt, iterCount);
    } else {
      cnt2 := cnt + 1;
      iterCount2 := iterCount;
      FirstKept(inst, s0, e, e2, tol, a, cnt, iterCount);
    }
  }

  /** Java's arc %= narcs at the head of each round: position N is
      position 0 again. */
  lemma FirstWrap(inst: Instance, s0: Sol, e: Engine, tol: int, arc: int, cnt: int, iterCount: int)
    requires FirstLoop(inst, s0, e, tol, arc, cnt, iterCount) && cnt < inst.m * inst.n
    ensures 0 <= arc % (inst.m * inst.n) < inst.m * inst.n
    ensures FirstLoop(inst, s0, e, tol, arc % (inst.m * inst.n), cnt, iterCount)
  {
    var N := inst.m * inst.n;
    ModOnce(arc, N);
    if arc == N {
      CheckedWrap(inst, e.sol, tol, cnt);
    }
  }

  lemma FirstMoved(inst: Instance, s0: Sol, e: Engine, e2: Engine, tol: int, a: int, cnt: int, iterCount: int)
    requires FirstLoop(inst, s0, e, tol, a, cnt, iterCount) && a < inst.m * inst.n
    requires ValidBasis(inst, e2.sol)
    requires Cost(inst, e2.sol.flow) + tol + 1 <= Cost(inst, e.sol.flow)
    requires e2.sol.totalCost - Cost(inst, e2.sol.flow) == e.sol.totalCost - Cost(inst, e.sol.flow)
    requires forall v :: 0 <= v < inst.m + inst.n ==> Balance(inst, e2.sol.flow, v) == Balance(inst, e.sol.flow, v)
    ensures FirstLoop(inst, s0, e2, tol, a + 1, 0, iterCount + 1)
  {
    DescentStep(inst, s0, e.sol, e2.sol, tol, iterCount - 1);
    CostNonNeg(inst, e2.sol.flow);
    assert BackIn(FineSet(inst, e2.sol, tol), inst.m * inst.n, a + 1, 0);
  }

  lemma FirstKept(inst: Instance, s0: Sol, e: Engine, e2: Engine, tol: int, a: int, cnt: int, iterCount: int)
    requires FirstLoop(inst, s0, e, tol, a, cnt, iterCount) && a < inst.m * inst.n && cnt < inst.m * inst.n
    requires e2.sol == e.sol && Fine(inst, e.sol, tol, a)
    ensures FirstLoop(inst, s0, e2, tol, a + 1, cnt + 1, iterCount)
  {
    CheckedStep(inst, e.sol, tol, a, cnt);
  }

  /** The local-search types of the parameter ls_type. */
  const FirstAcceptType: int := 0
  const BestAcceptType: int := 1

  /** LocalSearch: first-accept or best-accept by lsType; any other value
      leaves solution and iteration count alone. */
  method Run(inst: Instance, e: Engine, tol: int, lsType: int, start: int, iterCount0: int)
    returns (e2: Engine, iterCount: int)
    requires ValidBasis(inst, e.sol) && tol >= 0 && 0 <= start < inst.m * inst.n
    ensures lsType == FirstAcceptType || lsType == BestAcceptType ==>
      && iterCount >= 0 && Descent(inst, e.sol, e2.sol, tol, iterCount - 1) && LocalOptimum(inst, e2.sol, tol)
    ensures lsType == BestAcceptType ==> Descent(inst, e.sol, e2.sol, tol, iterCount)
    ensures lsType != FirstAcceptType && lsType != BestAcceptType ==> e2 == e && iterCount == iterCount0
  {
    if lsType == FirstAcceptType {
      e2, iterCount := FirstAccept(inst, e, tol, start);
    } else if lsType == BestAcceptType {
      e2, iterCount := BestAccept(inst, e, tol);
      assert (iterCount - 1) * (tol + 1) <= iterCount * (tol + 1);
    } else {
      e2, iterCount := e, iterCount0;
    }
  }
}
