/** The start heuristics of FCTPgreedy: the greedy method, the random basic
    solution and the randomised greedy method.  Each one repeatedly puts as
    much flow as possible on one arc between a supplier with remaining
    supply and a customer with remaining demand, and finally sets up the
    basis of the flows.  The loaded arcs always form a forest (each tree
    holds at most one node that still has something left), so that basis
    always exists.  Java's doubles become reals, its Double.MAX_VALUE
    sentinel the value Infinite, and the random number generator the input
    rand: draw t is rand(t), and nextInt(b) on it is rand(t) % b. */
module FctpGreedy {
  import opened FctpData
  import opened Solution
  import opened ArcGraph
  import opened Kruskal
  import opened Setup
  import opened Lists
  import opened Trees
  import opened Basis

  // ---------------------------------------------------------------------------
  // Greedy evaluation of an arc
  // ---------------------------------------------------------------------------

  /** Values of greedy_meas; any other value selects the default measure,
      fixed cost plus unit cost times the arc's capacity. */
  const GrLinCap: int := 1
  const GrLinRemCap: int := 2
  const GrLinTotC: int := 3

  /** A greedy evaluation: a real, or Double.MAX_VALUE, which is above
      every evaluation of an arc that can still take flow. */
  datatype Ext = Finite(v: real) | Infinite

  /** Java's `<` on evaluations. */
  predicate Below(a: Ext, b: Ext) {
    a.Finite? && (b.Infinite? || a.v < b.v)
  }

  function Min(a: int, b: int): (c: int)
    ensures c <= a && c <= b && (c == a || c == b)
  {
    if a < b then a else b
  }

  /** The capacity left on the arc from i to j: the smaller of the two
      remaining amounts, but at most the arc's capacity. */
  function RemCap(inst: Instance, i: int, j: int, rs: int, rd: int): (e: int)
    requires inst.Valid() && 0 <= i < inst.m && 0 <= j < inst.n
    ensures e <= rs && e <= rd && e <= GetCapIJ(inst, i, j)
    ensures e == rs || e == rd || e == GetCapIJ(inst, i, j)
  {
    var cap := GetCapIJ(inst, i, j);
    if cap < Min(rd, rs) then cap else Min(rd, rs)
  }

  /** The arc from supplier i to customer j, i*n + j. */
  function ArcOf(inst: Instance, i: int, j: int): (a: int)
    requires inst.m >= 1 && inst.n >= 1 && 0 <= i < inst.m && 0 <= j < inst.n
    ensures 0 <= a < inst.m * inst.n && Tail(inst, a) == i && a % inst.n == j
    ensures a == i * inst.n + j
  {
    ArcOfRange(i, j, inst.m, inst.n);
    DivMod(i, j, inst.n);
    i * inst.n + j
  }

  /** The four measures on an arc with unit cost tc, fixed cost fc,
      capacity cap and remaining capacity ecap. */
  function Measure(meas: int, tc: real, fc: real, cap: real, ecap: real): real
    requires cap != 0.0 && ecap != 0.0
  {
    if meas == GrLinCap then tc + fc / cap
    else if meas == GrLinRemCap then tc + fc / ecap
    else if meas == GrLinTotC then fc + tc * ecap
    else fc + tc * cap
  }

  /** With non-negative costs and positive capacities every measure is
      non-negative. */
  lemma MeasureNonNeg(meas: int, tc: real, fc: real, cap: real, ecap: real)
    requires tc >= 0.0 && fc >= 0.0 && cap > 0.0 && ecap > 0.0
    ensures Measure(meas, tc, fc, cap, ecap) >= 0.0
  {
    assert fc / cap * cap == fc;
    assert fc / ecap * ecap == fc;
  }

  /** GreedyValue(i, j, rs, rd): how attractive it is to saturate the arc
      from supplier i to customer j when rs and rd are left; MAX_VALUE when
      either end has nothing left. */
  function GreedyValue(inst: Instance, meas: int, i: int, j: int, rs: int, rd: int): (g: Ext)
    requires inst.Valid() && 0 <= i < inst.m && 0 <= j < inst.n
    ensures g.Infinite? <==> rs == 0 || rd == 0
    ensures g.Finite? && rs >= 0 && rd >= 0 ==> g.v >= 0.0
  {
    if rs == 0 || rd == 0 then Infinite
    else
      var cap := GetCapIJ(inst, i, j) as real;
      var ecap := RemCap(inst, i, j, rs, rd) as real;
      var tc := inst.tcost[ArcOf(inst, i, j)] as real;
      var fc := inst.fcost[ArcOf(inst, i, j)] as real;
      if rs >= 0 && rd >= 0 then
        MeasureNonNeg(meas, tc, fc, cap, ecap);
        Finite(Measure(meas, tc, fc, cap, ecap))
      else Finite(Measure(meas, tc, fc, cap, ecap))
  }

  /** A non-negative share of a cost spread over less capacity is larger. */
  lemma ShareMonotone(f: real, small: real, large: real)
    requires f >= 0.0 && 0.0 < small <= large
    ensures f / small >= f / large
  {
    assert f / small * small == f;
    assert f / large * large == f;
    assert f / large * small <= f / large * large;
  }

  /** The measures on one arc compared. */
  lemma MeasuresOrdered(tc: real, fc: real, cap: real, ecap: real)
    requires tc >= 0.0 && fc >= 0.0 && 0.0 < ecap <= cap
    ensures Measure(GrLinRemCap, tc, fc, cap, ecap) >= Measure(GrLinCap, tc, fc, cap, ecap)
    ensures Measure(GrLinTotC, tc, fc, cap, ecap) <= Measure(0, tc, fc, cap, ecap)
  {
    ShareMonotone(fc, ecap, cap);
    assert tc * ecap <= tc * cap;
  }

  /** The measures relative to each other: linearising the fixed cost over
      the remaining capacity never rates an arc cheaper than linearising it
      over the full capacity, and charging the unit cost on the remaining
      capacity never rates it dearer than charging it on the full capacity;
      while both ends can still fill the arc, the paired measures agree. */
  lemma MeasuresCompared(inst: Instance, i: int, j: int, rs: int, rd: int)
    requires inst.Valid() && 0 <= i < inst.m && 0 <= j < inst.n && rs > 0 && rd > 0
    ensures GreedyValue(inst, GrLinRemCap, i, j, rs, rd).v >= GreedyValue(inst, GrLinCap, i, j, rs, rd).v
    ensures GreedyValue(inst, GrLinTotC, i, j, rs, rd).v <= GreedyValue(inst, 0, i, j, rs, rd).v
    ensures rs >= GetCapIJ(inst, i, j) && rd >= GetCapIJ(inst, i, j) ==>
      && GreedyValue(inst, GrLinRemCap, i, j, rs, rd) == GreedyValue(inst, GrLinCap, i, j, rs, rd)
      && GreedyValue(inst, GrLinTotC, i, j, rs, rd) == GreedyValue(inst, 0, i, j, rs, rd)
  {
    var cap := GetCapIJ(inst, i, j) as real;
    var ecap := RemCap(inst, i, j, rs, rd) as real;
    var tc := inst.tcost[ArcOf(inst, i, j)] as real;
    var fc := inst.fcost[ArcOf(inst, i, j)] as real;
    MeasuresOrdered(tc, fc, cap, ecap);
  }

  // ---------------------------------------------------------------------------
  // The working arrays and what the saturation loop keeps
  // ---------------------------------------------------------------------------

  /** Sum of a list of amounts. */
  function Sum(s: seq<int>): int {
    if |s| == 0 then 0 else Sum(s[..|s| - 1]) + s[|s| - 1]
  }

  lemma {:induction false} SumUpdate(s: seq<int>, k: int, x: int)
    requires 0 <= k < |s|
    ensures Sum(s[k := s[k] - x]) == Sum(s) - x
  {
    var t := s[k := s[k] - x];
    if k < |s| - 1 {
      assert t[..|t| - 1] == s[..|s| - 1][k := s[k] - x];
      SumUpdate(s[..|s| - 1], k, x);
    } else {
      assert t[..|t| - 1] == s[..|s| - 1];
    }
  }

  /** A sum of non-negative amounts is non-negative, and zero only when
      every amount is zero. */
  lemma {:induction false} SumZero(s: seq<int>)
    requires forall k :: 0 <= k < |s| ==> s[k] >= 0
    ensures Sum(s) >= 0
    ensures Sum(s) == 0 <==> forall k :: 0 <= k < |s| ==> s[k] == 0
  {
    if |s| > 0 {
      var t := s[..|s| - 1];
      SumZero(t);
      if Sum(s) == 0 {
        forall k | 0 <= k < |s|
          ensures s[k] == 0
        {
          if k < |s| - 1 {
            assert s[k] == t[k];
          }
        }
      }
      if forall k :: 0 <= k < |s| ==> s[k] == 0 {
        assert forall k :: 0 <= k < |t| ==> t[k] == 0;
      }
    }
  }

  /** The working arrays of a construction: remaining supplies and demands,
      the suppliers and customers still active (Java's list prefixes of
      lengths mm and nn), and the flows. */
  datatype Work = Work(rs: seq<int>, rd: seq<int>, sup: seq<int>, cus: seq<int>, flow: seq<int>)

  /** The array lengths of the working arrays. */
  ghost predicate Shape(inst: Instance, w: Work) {
    && inst.Valid()
    && |w.rs| == inst.m && |w.rd| == inst.n && |w.flow| == inst.m * inst.n
  }

  /** Each node's balance is what it had minus what remains, and the
      remaining amounts lie between zero and the original ones. */
  ghost predicate Amounts(inst: Instance, w: Work)
    requires Shape(inst, w)
  {
    && (forall i :: 0 <= i < inst.m ==>
          0 <= w.rs[i] <= inst.supply[i] && Balance(inst, w.flow, i) == inst.supply[i] - w.rs[i])
    && (forall j :: 0 <= j < inst.n ==>
          0 <= w.rd[j] <= inst.demand[j] && Balance(inst, w.flow, inst.m + j) == inst.demand[j] - w.rd[j])
    && Sum(w.rs) - Sum(w.rd) == Sum(inst.supply) - Sum(inst.demand)
  }

  /** The active lists hold, once each, exactly the nodes with something
      left. */
  ghost predicate ActiveLists(inst: Instance, w: Work)
    requires Shape(inst, w)
  {
    && Distinct(w.sup) && Distinct(w.cus)
    && (forall k :: 0 <= k < |w.sup| ==> 0 <= w.sup[k] < inst.m)
    && (forall k :: 0 <= k < |w.cus| ==> 0 <= w.cus[k] < inst.n)
    && (forall i :: 0 <= i < inst.m ==> (i in w.sup <==> w.rs[i] > 0))
    && (forall j :: 0 <= j < inst.n ==> (j in w.cus <==> w.rd[j] > 0))
  }

  /** Flows are non-negative and within the arc capacity, and an arc
      carries flow only once one of its ends is exhausted. */
  ghost predicate LoadedArcs(inst: Instance, w: Work)
    requires Shape(inst, w)
  {
    && (forall a :: 0 <= a < inst.m * inst.n ==> 0 <= w.flow[a] <= GetCap(inst, a))
    && (forall a :: 0 <= a < inst.m * inst.n && w.flow[a] != 0 ==>
          w.rs[Tail(inst, a)] == 0 || w.rd[a % inst.n] == 0)
  }

  /** What every round keeps. */
  ghost predicate WorkInv(inst: Instance, w: Work) {
    Shape(inst, w) && Amounts(inst, w) && ActiveLists(inst, w) && LoadedArcs(inst, w)
  }

  /** The arcs carrying flow. */
  ghost function Loaded(flow: seq<int>): set<int> {
    set a | 0 <= a < |flow| && flow[a] > 0
  }

  /** Node v still has something left: supplier v, or customer v - m. */
  ghost predicate ActiveNode(inst: Instance, w: Work, v: int)
    requires Shape(inst, w)
  {
    0 <= v < inst.m + inst.n && (if v < inst.m then w.rs[v] > 0 else w.rd[v - inst.m] > 0)
  }

  /** The loaded arcs form a forest, and no two distinct active nodes lie
      in one of its trees: each tree has at most one active node, so the
      arc between two active nodes can never close a cycle. */
  ghost predicate Forested(inst: Instance, w: Work)
    requires Shape(inst, w)
  {
    && Acyclic(inst, Loaded(w.flow))
    && forall x, y :: ActiveNode(inst, w, x) && ActiveNode(inst, w, y) && x != y ==>
         !Connected(inst, Loaded(w.flow), x, y)
  }

  /** The round count: every round removes a supplier or a customer from
      its list, and the last round of a balanced instance removes both;
      every round loads one more arc. */
  ghost predicate Progress(inst: Instance, w: Work, rounds: int) {
    && 0 <= rounds
    && rounds + |w.sup| + |w.cus| + (if |w.sup| == 0 && |w.cus| == 0 then 1 else 0) <= inst.m + inst.n
    && |Loaded(w.flow)| <= rounds
  }

  /** What a construction delivers: feasible flows within the arc
      capacities that meet every demand when the supply suffices and ship
      every supply when the demand absorbs it, on at most m + n - 1 arcs. */
  ghost predicate Transported(inst: Instance, flow: seq<int>)
    requires inst.Valid() && |flow| == inst.m * inst.n
  {
    && FeasibleFlow(inst, flow)
    && (forall j :: 0 <= j < inst.n ==> Balance(inst, flow, inst.m + j) <= inst.demand[j])
    && (forall a :: 0 <= a < inst.m * inst.n ==> flow[a] <= GetCap(inst, a))
    && (Sum(inst.supply) >= Sum(inst.demand) ==>
          forall j :: 0 <= j < inst.n ==> Balance(inst, flow, inst.m + j) == inst.demand[j])
    && (Sum(inst.supply) <= Sum(inst.demand) ==>
          forall i :: 0 <= i < inst.m ==> Balance(inst, flow, i) == inst.supply[i])
    && |Loaded(flow)| <= inst.m + inst.n - 1
  }

  lemma {:induction false} RowZero(inst: Instance, flow: seq<int>, i: int, k: int)
    requires inst.m >= 1 && inst.n >= 1 && |flow| == inst.m * inst.n
    requires 0 <= i < inst.m && 0 <= k <= inst.n
    requires forall a :: 0 <= a < |flow| ==> flow[a] == 0
    ensures RowSum(inst, flow, i, k) == 0
  {
    if k > 0 {
      RowZero(inst, flow, i, k - 1);
      ArcOfRange(i, k - 1, inst.m, inst.n);
    }
  }

  lemma {:induction false} ColZero(inst: Instance, flow: seq<int>, j: int, k: int)
    requires inst.m >= 1 && inst.n >= 1 && |flow| == inst.m * inst.n
    requires 0 <= j < inst.n && 0 <= k <= inst.m
    requires forall a :: 0 <= a < |flow| ==> flow[a] == 0
    ensures ColSum(inst, flow, j, k) == 0
  {
    if k > 0 {
      ColZero(inst, flow, j, k - 1);
      ArcOfRange(k - 1, j, inst.m, inst.n);
    }
  }

  /** The zero flows balance every node at zero. */
  lemma ZeroBalances(inst: Instance, flow: seq<int>)
    requires inst.m >= 1 && inst.n >= 1 && |flow| == inst.m * inst.n
    requires forall a :: 0 <= a < |flow| ==> flow[a] == 0
    ensures forall v :: 0 <= v < inst.m + inst.n ==> Balance(inst, flow, v) == 0
  {
    forall v | 0 <= v < inst.m + inst.n
      ensures Balance(inst, flow, v) == 0
    {
      if v < inst.m {
        RowZero(inst, flow, v, inst.n);
      } else {
        ColZero(inst, flow, v - inst.m, inst.m);
      }
    }
  }

  /** Iota(k) lists each of 0, .., k - 1 once. */
  lemma IotaLists(k: nat)
    ensures Distinct(Iota(k))
    ensures forall x :: x in Iota(k) <==> 0 <= x < k
  {
    forall x | 0 <= x < k
      ensures x in Iota(k)
    {
      assert Iota(k)[x] == x;
    }
  }

  /** The arrays before the first round: everything remains, every node is
      active and the flows are zero (Arrays.fill). */
  method Start(inst: Instance) returns (w: Work)
    requires inst.Valid()
    ensures WorkInv(inst, w) && Progress(inst, w, 0)
    ensures |w.sup| == inst.m && |w.cus| == inst.n
    ensures forall a :: 0 <= a < inst.m * inst.n ==> w.flow[a] == 0
    ensures Forested(inst, w)
  {
    var zero := seq(inst.m * inst.n, _ => 0);
    w := Work(inst.supply, inst.demand, Iota(inst.m), Iota(inst.n), zero);
    ZeroBalances(inst, zero);
    IotaLists(inst.m);
    IotaLists(inst.n);
    assert Loaded(zero) == {};
    EmptyForested(inst, w);
  }

  /** With nothing loaded, every node is a tree of its own. */
  lemma EmptyForested(inst: Instance, w: Work)
    requires Shape(inst, w) && Loaded(w.flow) == {}
    ensures Forested(inst, w)
  {
    forall x, y | ActiveNode(inst, w, x) && ActiveNode(inst, w, y) && x != y
      ensures !Connected(inst, Loaded(w.flow), x, y)
    {
      if Connected(inst, Loaded(w.flow), x, y) {
        ConnectedEmpty(inst, x, y);
      }
    }
  }

  // ---------------------------------------------------------------------------
  // One round: saturate the chosen arc
  // ---------------------------------------------------------------------------

  /** The balances after loading x on the arc from ii to jj, which carried
      nothing before. */
  lemma LoadBalances(inst: Instance, flow: seq<int>, ii: int, jj: int, x: int)
    requires inst.m >= 1 && inst.n >= 1 && |flow| == inst.m * inst.n
    requires 0 <= ii < inst.m && 0 <= jj < inst.n
    requires flow[ArcOf(inst, ii, jj)] == 0
    ensures forall v :: 0 <= v < inst.m + inst.n ==>
      Balance(inst, flow[ArcOf(inst, ii, jj) := x], v) ==
      Balance(inst, flow, v) + (if v == ii || v == inst.m + jj then x else 0)
  {
    var arc := ArcOf(inst, ii, jj);
    assert flow[arc := x] == flow[arc := flow[arc] + x];
    forall v | 0 <= v < inst.m + inst.n
      ensures Balance(inst, flow[arc := x], v) == Balance(inst, flow, v) + (if v == ii || v == inst.m + jj then x else 0)
    {
      BalanceUpdate(inst, flow, arc, x, v);
    }
  }

  /** The amounts after a round: x leaves ii and reaches jj. */
  lemma AmountsAfter(inst: Instance, w: Work, ii: int, jj: int, x: int, w2: Work)
    requires Shape(inst, w) && Amounts(inst, w) && 0 <= ii < inst.m && 0 <= jj < inst.n
    requires w.flow[ArcOf(inst, ii, jj)] == 0 && x == Min(w.rs[ii], w.rd[jj])
    requires w2.rs == w.rs[ii := w.rs[ii] - x] && w2.rd == w.rd[jj := w.rd[jj] - x]
    requires w2.flow == w.flow[ArcOf(inst, ii, jj) := x]
    ensures Shape(inst, w2) && Amounts(inst, w2)
  {
    LoadBalances(inst, w.flow, ii, jj, x);
    SuppliersAfter(inst, w.flow, w2.flow, w.rs, w2.rs, ii, jj, x);
    CustomersAfter(inst, w.flow, w2.flow, w.rd, w2.rd, ii, jj, x);
    SumUpdate(w.rs, ii, x);
    SumUpdate(w.rd, jj, x);
  }

  /** The supplier side of AmountsAfter. */
  lemma SuppliersAfter(inst: Instance, flow: seq<int>, flow2: seq<int>, rs: seq<int>, rs2: seq<int>, ii: int, jj: int, x: int)
    requires inst.m >= 1 && inst.n >= 1 && |inst.supply| == inst.m
    requires |flow| == |flow2| == inst.m * inst.n && |rs| == inst.m && 0 <= ii < inst.m && 0 <= jj < inst.n
    requires 0 <= x <= rs[ii] && rs2 == rs[ii := rs[ii] - x]
    requires forall i :: 0 <= i < inst.m ==>
      0 <= rs[i] <= inst.supply[i] && Balance(inst, flow, i) == inst.supply[i] - rs[i]
    requires forall v :: 0 <= v < inst.m + inst.n ==>
      Balance(inst, flow2, v) == Balance(inst, flow, v) + (if v == ii || v == inst.m + jj then x else 0)
    ensures forall i :: 0 <= i < inst.m ==>
      0 <= rs2[i] <= inst.supply[i] && Balance(inst, flow2, i) == inst.supply[i] - rs2[i]
  {
    forall i | 0 <= i < inst.m
      ensures 0 <= rs2[i] <= inst.supply[i] && Balance(inst, flow2, i) == inst.supply[i] - rs2[i]
    {
      assert Balance(inst, flow2, i) == Balance(inst, flow, i) + (if i == ii || i == inst.m + jj then x else 0);
    }
  }

  /** The customer side of AmountsAfter. */
  lemma CustomersAfter(inst: Instance, flow: seq<int>, flow2: seq<int>, rd: seq<int>, rd2: seq<int>, ii: int, jj: int, x: int)
    requires inst.m >= 1 && inst.n >= 1 && |inst.demand| == inst.n
    requires |flow| == |flow2| == inst.m * inst.n && |rd| == inst.n && 0 <= jj < inst.n
    requires 0 <= ii < inst.m && 0 <= x <= rd[jj] && rd2 == rd[jj := rd[jj] - x]
    requires forall j :: 0 <= j < inst.n ==>
      0 <= rd[j] <= inst.demand[j] && Balance(inst, flow, inst.m + j) == inst.demand[j] - rd[j]
    requires forall v :: 0 <= v < inst.m + inst.n ==>
      Balance(inst, flow2, v) == Balance(inst, flow, v) + (if v == ii || v == inst.m + jj then x else 0)
    ensures forall j :: 0 <= j < inst.n ==>
      0 <= rd2[j] <= inst.demand[j] && Balance(inst, flow2, inst.m + j) == inst.demand[j] - rd2[j]
  {
    forall j | 0 <= j < inst.n
      ensures 0 <= rd2[j] <= inst.demand[j] && Balance(inst, flow2, inst.m + j) == inst.demand[j] - rd2[j]
    {
      var v := inst.m + j;
      assert Balance(inst, flow2, v) == Balance(inst, flow, v) + (if v == ii || v == inst.m + jj then x else 0);
    }
  }

  /** The list of active nodes after a round: the saturated end leaves
      by swap-removal once nothing remains at it. */
  lemma ActiveAfter(list: seq<int>, r: seq<int>, r2: seq<int>, pos: int, bound: int)
    requires Distinct(list) && 0 <= pos < |list| && |r| == |r2| == bound
    requires forall k :: 0 <= k < |list| ==> 0 <= list[k] < bound
    requires forall i :: 0 <= i < bound ==> (i in list <==> r[i] > 0)
    requires forall i :: 0 <= i < bound && i != list[pos] ==> r2[i] == r[i]
    requires r2[list[pos]] >= 0
    ensures var list2 := if r2[list[pos]] == 0 then RemoveSwap(list, pos) else list;
      && Distinct(list2)
      && (forall k :: 0 <= k < |list2| ==> 0 <= list2[k] < bound)
      && (forall i :: 0 <= i < bound ==> (i in list2 <==> r2[i] > 0))
      && |list2| == |list| - (if r2[list[pos]] == 0 then 1 else 0)
  {
    if r2[list[pos]] == 0 {
      RemoveSwapMembers(list, pos);
      var list2 := RemoveSwap(list, pos);
      forall k | 0 <= k < |list2|
        ensures 0 <= list2[k] < bound
      {
        assert list2[k] in list;
      }
    }
  }

  /** The arcs after a round keep their capacity bound, and each loaded arc
      still has an exhausted end. */
  lemma ArcsAfter(inst: Instance, w: Work, ii: int, jj: int, x: int, w2: Work)
    requires Shape(inst, w) && LoadedArcs(inst, w) && 0 <= ii < inst.m && 0 <= jj < inst.n
    requires 0 <= w.rs[ii] <= inst.supply[ii] && 0 <= w.rd[jj] <= inst.demand[jj]
    requires forall i :: 0 <= i < inst.m ==> w.rs[i] >= 0
    requires forall j :: 0 <= j < inst.n ==> w.rd[j] >= 0
    requires x == Min(w.rs[ii], w.rd[jj])
    requires w2.rs == w.rs[ii := w.rs[ii] - x] && w2.rd == w.rd[jj := w.rd[jj] - x]
    requires w2.flow == w.flow[ArcOf(inst, ii, jj) := x]
    ensures Shape(inst, w2) && LoadedArcs(inst, w2)
  {
    var arc := ArcOf(inst, ii, jj);
    assert GetCap(inst, arc) == inst.supply[ii] || GetCap(inst, arc) == inst.demand[jj];
    forall a | 0 <= a < inst.m * inst.n && w2.flow[a] != 0
      ensures w2.rs[Tail(inst, a)] == 0 || w2.rd[a % inst.n] == 0
    {
      if a != arc {
        assert w.flow[a] != 0;
      }
    }
  }

  /** The active lists after a round: one or both ends of the saturated
      arc leave, and the lists stay exact. */
  lemma ListsAfter(inst: Instance, w: Work, i: int, j: int, ii: int, jj: int, w2: Work)
    requires Shape(inst, w) && ActiveLists(inst, w) && 0 <= i < |w.sup| && 0 <= j < |w.cus|
    requires 0 <= ii < inst.m && 0 <= jj < inst.n && ii == w.sup[i] && jj == w.cus[j]
    requires forall k :: 0 <= k < inst.m ==> w.rs[k] >= 0
    requires forall k :: 0 <= k < inst.n ==> w.rd[k] >= 0
    requires var x := Min(w.rs[ii], w.rd[jj]);
      && w2.rs == w.rs[ii := w.rs[ii] - x] && w2.rd == w.rd[jj := w.rd[jj] - x]
      && w2.sup == (if w2.rs[ii] == 0 then RemoveSwap(w.sup, i) else w.sup)
      && w2.cus == (if w2.rd[jj] == 0 then RemoveSwap(w.cus, j) else w.cus)
      && |w2.flow| == |w.flow|
    ensures Shape(inst, w2) && ActiveLists(inst, w2)
    ensures |w2.sup| <= |w.sup| && |w2.cus| <= |w.cus| && |w2.sup| + |w2.cus| < |w.sup| + |w.cus|
  {
    ActiveAfter(w.sup, w.rs, w2.rs, i, inst.m);
    ActiveAfter(w.cus, w.rd, w2.rd, j, inst.n);
  }

  /** The round count after a round that shortened the lists and loaded
      at most the one arc. */
  lemma ProgressAfter(inst: Instance, w: Work, w2: Work, arc: int, rounds: int)
    requires Progress(inst, w, rounds) && |w.sup| > 0 && |w.cus| > 0
    requires |w2.sup| <= |w.sup| && |w2.cus| <= |w.cus| && |w2.sup| + |w2.cus| < |w.sup| + |w.cus|
    requires Loaded(w2.flow) <= Loaded(w.flow) + {arc}
    ensures Progress(inst, w2, rounds + 1)
  {
    SubsetCard(Loaded(w2.flow), Loaded(w.flow) + {arc});
  }

  /** The work state after saturating the arc from the i-th active
      supplier to the j-th active customer. */
  function Round(inst: Instance, w: Work, i: int, j: int): (w2: Work)
    requires Shape(inst, w) && ActiveLists(inst, w) && 0 <= i < |w.sup| && 0 <= j < |w.cus|
    ensures 0 <= w.sup[i] < inst.m && 0 <= w.cus[j] < inst.n
    ensures var ii, jj := w.sup[i], w.cus[j];
      var x := Min(w.rs[ii], w.rd[jj]);
      && w2.rs == w.rs[ii := w.rs[ii] - x] && w2.rd == w.rd[jj := w.rd[jj] - x]
      && w2.flow == w.flow[ArcOf(inst, ii, jj) := x]
  {
    ActiveEnds(inst, w, i, j);
    var ii, jj := w.sup[i], w.cus[j];
    var x := Min(w.rs[ii], w.rd[jj]);
    var rs := w.rs[ii := w.rs[ii] - x];
    var rd := w.rd[jj := w.rd[jj] - x];
    Work(rs, rd,
         if rs[ii] == 0 then RemoveSwap(w.sup, i) else w.sup,
         if rd[jj] == 0 then RemoveSwap(w.cus, j) else w.cus,
         w.flow[ArcOf(inst, ii, jj) := x])
  }

  /** A round keeps the amounts. */
  lemma RoundAmounts(inst: Instance, w: Work, i: int, j: int)
    requires WorkInv(inst, w) && 0 <= i < |w.sup| && 0 <= j < |w.cus|
    ensures Shape(inst, Round(inst, w, i, j)) && Amounts(inst, Round(inst, w, i, j))
  {
    var ii, jj := w.sup[i], w.cus[j];
    ActiveEnds(inst, w, i, j);
    ActiveEmpty(inst, w, i, j, ii, jj);
    AmountsAfter(inst, w, ii, jj, Min(w.rs[ii], w.rd[jj]), Round(inst, w, i, j));
  }

  /** A round keeps the active lists exact and shortens them. */
  lemma RoundLists(inst: Instance, w: Work, i: int, j: int)
    requires WorkInv(inst, w) && 0 <= i < |w.sup| && 0 <= j < |w.cus|
    ensures Shape(inst, Round(inst, w, i, j)) && ActiveLists(inst, Round(inst, w, i, j))
    ensures var w2 := Round(inst, w, i, j);
      |w2.sup| <= |w.sup| && |w2.cus| <= |w.cus| && |w2.sup| + |w2.cus| < |w.sup| + |w.cus|
  {
    ActiveEnds(inst, w, i, j);
    ListsAfter(inst, w, i, j, w.sup[i], w.cus[j], Round(inst, w, i, j));
  }

  /** A round keeps every loaded arc within its capacity and at an
      exhausted end. */
  lemma RoundArcs(inst: Instance, w: Work, i: int, j: int)
    requires WorkInv(inst, w) && 0 <= i < |w.sup| && 0 <= j < |w.cus|
    ensures Shape(inst, Round(inst, w, i, j)) && LoadedArcs(inst, Round(inst, w, i, j))
    ensures Loaded(Round(inst, w, i, j).flow) <= Loaded(w.flow) + {ArcOf(inst, w.sup[i], w.cus[j])}
  {
    var ii, jj := w.sup[i], w.cus[j];
    ActiveEnds(inst, w, i, j);
    var w2 := Round(inst, w, i, j);
    ArcsAfter(inst, w, ii, jj, Min(w.rs[ii], w.rd[jj]), w2);
    assert Loaded(w2.flow) <= Loaded(w.flow) + {ArcOf(inst, ii, jj)};
  }

  /** A round keeps the invariant, shortens the active lists and counts. */
  lemma SaturateKeeps(inst: Instance, w: Work, i: int, j: int, w2: Work, rounds: int)
    requires WorkInv(inst, w) && Progress(inst, w, rounds) && 0 <= i < |w.sup| && 0 <= j < |w.cus|
    requires w2 == Round(inst, w, i, j)
    ensures WorkInv(inst, w2) && Progress(inst, w2, rounds + 1)
    ensures |w2.sup| + |w2.cus| < |w.sup| + |w.cus|
    ensures 0 <= w.sup[i] < inst.m && 0 <= w.cus[j] < inst.n
    ensures var arc := ArcOf(inst, w.sup[i], w.cus[j]);
      && w.flow[arc] == 0 && w2.flow[arc] > 0
      && (w2.rs[w.sup[i]] == 0 || w2.rd[w.cus[j]] == 0)
      && forall a :: 0 <= a < inst.m * inst.n && a != arc ==> w2.flow[a] == w.flow[a]
  {
    ActiveEnds(inst, w, i, j);
    ActiveEmpty(inst, w, i, j, w.sup[i], w.cus[j]);
    RoundAmounts(inst, w, i, j);
    RoundLists(inst, w, i, j);
    RoundArcs(inst, w, i, j);
    ProgressAfter(inst, w, w2, ArcOf(inst, w.sup[i], w.cus[j]), rounds);
  }

  /** An arc between two active nodes carries nothing yet. */
  lemma ActiveEmpty(inst: Instance, w: Work, i: int, j: int, ii: int, jj: int)
    requires Shape(inst, w) && ActiveLists(inst, w) && LoadedArcs(inst, w)
    requires 0 <= i < |w.sup| && 0 <= j < |w.cus|
    requires 0 <= ii < inst.m && 0 <= jj < inst.n && ii == w.sup[i] && jj == w.cus[j]
    ensures w.rs[ii] > 0 && w.rd[jj] > 0 && w.flow[ArcOf(inst, ii, jj)] == 0
  {
    assert ii in w.sup && jj in w.cus;
  }

  /** A round loads exactly its arc, which was empty. */
  lemma RoundLoads(inst: Instance, w: Work, i: int, j: int)
    requires WorkInv(inst, w) && 0 <= i < |w.sup| && 0 <= j < |w.cus|
    ensures 0 <= w.sup[i] < inst.m && 0 <= w.cus[j] < inst.n
    ensures var e := ArcOf(inst, w.sup[i], w.cus[j]);
      && e !in Loaded(w.flow) && Loaded(Round(inst, w, i, j).flow) == Loaded(w.flow) + {e}
      && Tail(inst, e) == w.sup[i] && Head(inst, e) == inst.m + w.cus[j]
  {
    ActiveEnds(inst, w, i, j);
    ActiveEmpty(inst, w, i, j, w.sup[i], w.cus[j]);
    var e := ArcOf(inst, w.sup[i], w.cus[j]);
    var w2 := Round(inst, w, i, j);
    assert w2.flow[e] > 0;
    assert Loaded(w2.flow) == Loaded(w.flow) + {e};
  }

  /** The active nodes of a work state. */
  ghost function Actives(inst: Instance, w: Work): set<int>
    requires Shape(inst, w)
  {
    set v | 0 <= v < inst.m + inst.n && ActiveNode(inst, w, v)
  }

  /** Taking min(rs[ii], rd[jj]) off the remaining amounts of two active
      nodes only exhausts nodes, and exhausts one of the two. */
  lemma TakeShrinks(inst: Instance, w: Work, w2: Work, ii: int, jj: int, x: int)
    requires Shape(inst, w) && Shape(inst, w2) && 0 <= ii < inst.m && 0 <= jj < inst.n
    requires w.rs[ii] > 0 && w.rd[jj] > 0 && x == Min(w.rs[ii], w.rd[jj])
    requires w2.rs == w.rs[ii := w.rs[ii] - x] && w2.rd == w.rd[jj := w.rd[jj] - x]
    ensures var A, A2 := Actives(inst, w), Actives(inst, w2);
      && A2 <= A && ii in A && inst.m + jj in A && !(ii in A2 && inst.m + jj in A2)
  {
    assert ActiveNode(inst, w, ii) && ActiveNode(inst, w, inst.m + jj);
    assert !ActiveNode(inst, w2, ii) || !ActiveNode(inst, w2, inst.m + jj);
    forall v | v in Actives(inst, w2)
      ensures v in Actives(inst, w)
    {
      if v < inst.m {
        assert w2.rs[v] <= w.rs[v];
      } else {
        assert w2.rd[v - inst.m] <= w.rd[v - inst.m];
      }
    }
  }

  /** A round only exhausts nodes, and exhausts one end of its arc. */
  lemma RoundActives(inst: Instance, w: Work, i: int, j: int)
    requires WorkInv(inst, w) && 0 <= i < |w.sup| && 0 <= j < |w.cus|
    ensures Shape(inst, Round(inst, w, i, j))
    ensures 0 <= w.sup[i] < inst.m && 0 <= w.cus[j] < inst.n
    ensures var A, A2 := Actives(inst, w), Actives(inst, Round(inst, w, i, j));
      && A2 <= A && w.sup[i] in A && inst.m + w.cus[j] in A
      && !(w.sup[i] in A2 && inst.m + w.cus[j] in A2)
  {
    ActiveEnds(inst, w, i, j);
    TakeShrinks(inst, w, Round(inst, w, i, j), w.sup[i], w.cus[j], Min(w.rs[w.sup[i]], w.rd[w.cus[j]]));
  }

  /** Joining two trees that hold one active node each, and then
      exhausting one of the two, leaves every tree with at most one active
      node. */
  lemma JoinSeparates(inst: Instance, L: set<int>, e: int, A: set<int>, A2: set<int>)
    requires inst.m >= 1 && inst.n >= 1 && 0 <= e < inst.m * inst.n
    requires forall a :: a in L ==> 0 <= a < inst.m * inst.n
    requires forall x, y :: x in A && y in A && x != y ==> !Connected(inst, L, x, y)
    requires Tail(inst, e) in A && Head(inst, e) in A
    requires A2 <= A && !(Tail(inst, e) in A2 && Head(inst, e) in A2)
    ensures forall x, y :: x in A2 && y in A2 && x != y ==> !Connected(inst, L + {e}, x, y)
  {
    var t, h := Tail(inst, e), Head(inst, e);
    forall x, y | x in A2 && y in A2 && x != y
      ensures !Connected(inst, L + {e}, x, y)
    {
      assert Connected(inst, L, x, t) ==> x == t;
      assert Connected(inst, L, t, y) ==> y == t;
      assert Connected(inst, L, x, h) ==> x == h;
      assert Connected(inst, L, h, y) ==> y == h;
      if Connected(inst, L + {e}, x, y) {
        ConnectedSplit(inst, L, e, x, y);
      }
    }
  }

  /** A round keeps the loaded arcs a forest with at most one active node
      per tree: its two ends are active, so they lie in different trees;
      the arc joins those two trees, and one of its ends is exhausted. */
  lemma RoundForest(inst: Instance, w: Work, i: int, j: int)
    requires WorkInv(inst, w) && Forested(inst, w) && 0 <= i < |w.sup| && 0 <= j < |w.cus|
    ensures Shape(inst, Round(inst, w, i, j)) && Forested(inst, Round(inst, w, i, j))
  {
    RoundLoads(inst, w, i, j);
    RoundActives(inst, w, i, j);
    var w2 := Round(inst, w, i, j);
    var e := ArcOf(inst, w.sup[i], w.cus[j]);
    var L, A, A2 := Loaded(w.flow), Actives(inst, w), Actives(inst, w2);
    assert forall x, y :: x in A && y in A && x != y ==> !Connected(inst, L, x, y);
    AcyclicAdd(inst, L, e);
    JoinSeparates(inst, L, e, A, A2);
    assert forall x :: ActiveNode(inst, w2, x) ==> x in A2;
  }

  /** Loaded arcs that form a forest are a forest in setBasis's sense. */
  lemma ForestedFlow(inst: Instance, w: Work)
    requires WorkInv(inst, w) && Forested(inst, w)
    ensures FlowForest(inst, w.flow)
  {
    assert Loaded(w.flow) == FlowArcsBefore(w.flow, |w.flow|);
    AcyclicFlowForest(inst, w.flow);
  }

  /** Java's saturation step: put min(r_supply[ii], r_demand[jj]) on the arc
      from the i-th active supplier ii to the j-th active customer jj, take
      it off both remaining amounts, and drop an exhausted end from its list
      by swap-removal.  The arc was empty and becomes loaded, one of its
      ends is exhausted, and no other arc changes. */
  method Saturate(inst: Instance, w: Work, i: int, j: int, ghost rounds: int) returns (w2: Work)
    requires WorkInv(inst, w) && Progress(inst, w, rounds) && 0 <= i < |w.sup| && 0 <= j < |w.cus|
    ensures WorkInv(inst, w2) && Progress(inst, w2, rounds + 1)
    ensures |w2.sup| + |w2.cus| < |w.sup| + |w.cus|
    ensures 0 <= w.sup[i] < inst.m && 0 <= w.cus[j] < inst.n
    ensures var arc := ArcOf(inst, w.sup[i], w.cus[j]);
      && w.flow[arc] == 0 && w2.flow[arc] > 0
      && (w2.rs[w.sup[i]] == 0 || w2.rd[w.cus[j]] == 0)
      && forall a :: 0 <= a < inst.m * inst.n && a != arc ==> w2.flow[a] == w.flow[a]
    ensures Forested(inst, w) ==> Forested(inst, w2)
  {
    w2 := Round(inst, w, i, j);
    SaturateKeeps(inst, w, i, j, w2, rounds);
    if Forested(inst, w) {
      RoundForest(inst, w, i, j);
    }
  }

  /** The i-th active supplier and the j-th active customer are nodes with
      something left. */
  lemma ActiveEnds(inst: Instance, w: Work, i: int, j: int)
    requires Shape(inst, w) && ActiveLists(inst, w) && 0 <= i < |w.sup| && 0 <= j < |w.cus|
    ensures 0 <= w.sup[i] < inst.m && 0 <= w.cus[j] < inst.n
    ensures w.rs[w.sup[i]] > 0 && w.rd[w.cus[j]] > 0
  {
    assert w.sup[i] in w.sup && w.cus[j] in w.cus;
  }

  /** Once a list runs empty the flows are a complete transport. */
  lemma Finished(inst: Instance, w: Work, rounds: int)
    requires WorkInv(inst, w) && Progress(inst, w, rounds) && (|w.sup| == 0 || |w.cus| == 0)
    ensures Transported(inst, w.flow)
  {
    if |w.sup| == 0 {
      Exhausted(w.sup, w.rs, inst.m);
      Forced(w.rs, w.rd, Sum(inst.supply), Sum(inst.demand));
    } else {
      Exhausted(w.cus, w.rd, inst.n);
      Forced(w.rd, w.rs, Sum(inst.demand), Sum(inst.supply));
    }
    Delivered(inst, w, rounds);
  }

  /** An empty active list means nothing remains at any node. */
  lemma Exhausted(list: seq<int>, r: seq<int>, bound: int)
    requires |list| == 0 && |r| == bound && forall i :: 0 <= i < bound ==> (i in list <==> r[i] > 0)
    requires forall i :: 0 <= i < bound ==> r[i] >= 0
    ensures forall i :: 0 <= i < |r| ==> r[i] == 0
  {
    forall i | 0 <= i < bound
      ensures r[i] == 0
    {
      assert i !in list;
    }
  }

  /** When one side has nothing left and had at least as much as the other
      side to begin with, the other side has nothing left either. */
  lemma Forced(r: seq<int>, q: seq<int>, total: int, other: int)
    requires forall k :: 0 <= k < |r| ==> r[k] == 0
    requires forall k :: 0 <= k < |q| ==> q[k] >= 0
    requires Sum(r) - Sum(q) == total - other
    ensures total >= other ==> forall k :: 0 <= k < |q| ==> q[k] == 0
  {
    SumZero(r);
    SumZero(q);
  }

  /** The invariant, read at the end. */
  lemma Delivered(inst: Instance, w: Work, rounds: int)
    requires WorkInv(inst, w) && Progress(inst, w, rounds) && (|w.sup| == 0 || |w.cus| == 0)
    requires forall i :: 0 <= i < inst.m ==> (Sum(inst.supply) <= Sum(inst.demand) || |w.sup| == 0) ==> w.rs[i] == 0
    requires forall j :: 0 <= j < inst.n ==> (Sum(inst.supply) >= Sum(inst.demand) || |w.cus| == 0) ==> w.rd[j] == 0
    ensures Transported(inst, w.flow)
  {
    assert FeasibleFlow(inst, w.flow);
    assert rounds <= inst.m + inst.n - 1;
  }

  // ---------------------------------------------------------------------------
  // Choosing the arc of a round
  // ---------------------------------------------------------------------------

  /** The evaluation of the arc from the i-th active supplier to the j-th
      active customer; it is never the MAX_VALUE sentinel. */
  function Val(inst: Instance, meas: int, w: Work, i: int, j: int): (g: Ext)
    requires Shape(inst, w) && ActiveLists(inst, w) && 0 <= i < |w.sup| && 0 <= j < |w.cus|
    ensures g.Finite? && g.v >= 0.0
  {
    ActiveEnds(inst, w, i, j);
    GreedyValue(inst, meas, w.sup[i], w.cus[j], w.rs[w.sup[i]], w.rd[w.cus[j]])
  }

  /** Position (i, j) comes before (i0, j0) in the row-by-row scan. */
  predicate Lex(i: int, j: int, i0: int, j0: int) {
    i < i0 || (i == i0 && j < j0)
  }

  /** The scan of the greedy method has looked at the positions before
      (i, j): (bi, bj) is the first of them with the least evaluation, and
      minVal that evaluation, or MAX_VALUE with bi = -1 before the first. */
  ghost predicate ScanState(inst: Instance, meas: int, w: Work, i: int, j: int, bi: int, bj: int, minVal: Ext)
    requires Shape(inst, w) && ActiveLists(inst, w)
  {
    && 0 <= i <= |w.sup| && 0 <= j <= |w.cus|
    && (i == 0 && j == 0 ==> minVal == Infinite && bi == -1)
    && (i > 0 || j > 0 ==>
          && 0 <= bi < |w.sup| && 0 <= bj < |w.cus| && Lex(bi, bj, i, j)
          && minVal == Val(inst, meas, w, bi, bj))
    && (forall i', j' :: 0 <= i' < |w.sup| && 0 <= j' < |w.cus| && Lex(i', j', i, j) ==>
          !Below(Val(inst, meas, w, i', j'), minVal))
    && (forall i', j' :: 0 <= i' < |w.sup| && 0 <= j' < |w.cus| && Lex(i', j', bi, bj) ==>
          Below(minVal, Val(inst, meas, w, i', j')))
  }

  /** One position of the scan with a strictly smaller evaluation: it
      takes over. */
  lemma ScanTake(inst: Instance, meas: int, w: Work, i: int, j: int, bi: int, bj: int, minVal: Ext)
    requires Shape(inst, w) && ActiveLists(inst, w)
    requires ScanState(inst, meas, w, i, j, bi, bj, minVal) && i < |w.sup| && j < |w.cus|
    requires Below(Val(inst, meas, w, i, j), minVal)
    ensures ScanState(inst, meas, w, i, j + 1, i, j, Val(inst, meas, w, i, j))
  {
    var g := Val(inst, meas, w, i, j);
    forall i', j' | 0 <= i' < |w.sup| && 0 <= j' < |w.cus| && Lex(i', j', i, j)
      ensures Below(g, Val(inst, meas, w, i', j'))
    {
      assert !Below(Val(inst, meas, w, i', j'), minVal);
    }
  }

  /** One position of the scan with no smaller evaluation: the best so far
      stays. */
  lemma ScanKeep(inst: Instance, meas: int, w: Work, i: int, j: int, bi: int, bj: int, minVal: Ext)
    requires Shape(inst, w) && ActiveLists(inst, w)
    requires ScanState(inst, meas, w, i, j, bi, bj, minVal) && i < |w.sup| && j < |w.cus|
    requires !Below(Val(inst, meas, w, i, j), minVal)
    ensures ScanState(inst, meas, w, i, j + 1, bi, bj, minVal)
  {
  }

  /** The end of a row of the scan is the start of the next. */
  lemma ScanRow(inst: Instance, meas: int, w: Work, i: int, bi: int, bj: int, minVal: Ext)
    requires Shape(inst, w) && ActiveLists(inst, w) && |w.cus| > 0
    requires ScanState(inst, meas, w, i, |w.cus|, bi, bj, minVal) && i < |w.sup|
    ensures ScanState(inst, meas, w, i + 1, 0, bi, bj, minVal)
  {
    forall i', j' | 0 <= i' < |w.sup| && 0 <= j' < |w.cus| && Lex(i', j', i + 1, 0)
      ensures !Below(Val(inst, meas, w, i', j'), minVal)
    {
      assert Lex(i', j', i, |w.cus|);
    }
  }

  /** The choice of the greedy method: the active pair with the smallest
      evaluation, the first one in row-by-row order on ties. */
  method GreedyChoice(inst: Instance, meas: int, w: Work) returns (bi: int, bj: int)
    requires Shape(inst, w) && ActiveLists(inst, w) && |w.sup| > 0 && |w.cus| > 0
    ensures 0 <= bi < |w.sup| && 0 <= bj < |w.cus|
    ensures forall i, j :: 0 <= i < |w.sup| && 0 <= j < |w.cus| ==>
      !Below(Val(inst, meas, w, i, j), Val(inst, meas, w, bi, bj))
    ensures forall i, j :: 0 <= i < |w.sup| && 0 <= j < |w.cus| && Lex(i, j, bi, bj) ==>
      Below(Val(inst, meas, w, bi, bj), Val(inst, meas, w, i, j))
  {
    var minVal := Infinite;
    bi, bj := -1, -1;
    var i := 0;
    while i < |w.sup|
      invariant ScanState(inst, meas, w, i, 0, bi, bj, minVal)
    {
      var j := 0;
      while j < |w.cus|
        invariant ScanState(inst, meas, w, i, j, bi, bj, minVal)
      {
        bi, bj, minVal := ScanAt(inst, meas, w, i, j, bi, bj, minVal);
        j := j + 1;
      }
      ScanRow(inst, meas, w, i, bi, bj, minVal);
      i := i + 1;
    }
    ScanDone(inst, meas, w, bi, bj, minVal);
  }

  /** The body of the inner scan loop: evaluate position (i, j) and keep it
      when it is strictly better than the best so far. */
  method ScanAt(inst: Instance, meas: int, w: Work, i: int, j: int, bi: int, bj: int, minVal: Ext)
    returns (bi2: int, bj2: int, minVal2: Ext)
    requires Shape(inst, w) && ActiveLists(inst, w)
    requires ScanState(inst, meas, w, i, j, bi, bj, minVal) && i < |w.sup| && j < |w.cus|
    ensures ScanState(inst, meas, w, i, j + 1, bi2, bj2, minVal2)
  {
    ActiveEnds(inst, w, i, j);
    var g := GreedyValue(inst, meas, w.sup[i], w.cus[j], w.rs[w.sup[i]], w.rd[w.cus[j]]);
    assert g == Val(inst, meas, w, i, j);
    if Below(g, minVal) {
      ScanTake(inst, meas, w, i, j, bi, bj, minVal);
      bi2, bj2, minVal2 := i, j, g;
    } else {
      ScanKeep(inst, meas, w, i, j, bi, bj, minVal);
      bi2, bj2, minVal2 := bi, bj, minVal;
    }
  }

  /** The complete scan has found the first least evaluation. */
  lemma ScanDone(inst: Instance, meas: int, w: Work, bi: int, bj: int, minVal: Ext)
    requires Shape(inst, w) && ActiveLists(inst, w) && |w.sup| > 0
    requires ScanState(inst, meas, w, |w.sup|, 0, bi, bj, minVal)
    ensures 0 <= bi < |w.sup| && 0 <= bj < |w.cus|
    ensures forall i, j :: 0 <= i < |w.sup| && 0 <= j < |w.cus| ==>
      !Below(Val(inst, meas, w, i, j), Val(inst, meas, w, bi, bj))
    ensures forall i, j :: 0 <= i < |w.sup| && 0 <= j < |w.cus| && Lex(i, j, bi, bj) ==>
      Below(Val(inst, meas, w, bi, bj), Val(inst, meas, w, i, j))
  {
    forall i, j | 0 <= i < |w.sup| && 0 <= j < |w.cus|
      ensures !Below(Val(inst, meas, w, i, j), minVal)
    {
      assert Lex(i, j, |w.sup|, 0);
    }
  }

  /** The scan of the randomised greedy method has looked at the positions
      before (i, j), and lo is the least evaluation seen, attained at
      (ilo, jlo); MAX_VALUE before the first position. */
  ghost predicate LoState(inst: Instance, meas: int, w: Work, i: int, j: int, lo: Ext, ilo: int, jlo: int)
    requires Shape(inst, w) && ActiveLists(inst, w)
  {
    && 0 <= i <= |w.sup| && 0 <= j <= |w.cus|
    && (i == 0 && j == 0 ==> lo == Infinite)
    && (i > 0 || j > 0 ==> 0 <= ilo < |w.sup| && 0 <= jlo < |w.cus| && lo == Val(inst, meas, w, ilo, jlo))
    && (forall i', j' :: 0 <= i' < |w.sup| && 0 <= j' < |w.cus| && Lex(i', j', i, j) ==>
          !Below(Val(inst, meas, w, i', j'), lo))
  }

  /** Likewise hi is the largest evaluation seen, attained at (ihi, jhi);
      0.0 before the first position. */
  ghost predicate HiState(inst: Instance, meas: int, w: Work, i: int, j: int, hi: Ext, ihi: int, jhi: int)
    requires Shape(inst, w) && ActiveLists(inst, w)
  {
    && 0 <= i <= |w.sup| && 0 <= j <= |w.cus|
    && (i == 0 && j == 0 ==> hi == Finite(0.0))
    && (i > 0 || j > 0 ==> 0 <= ihi < |w.sup| && 0 <= jhi < |w.cus| && hi == Val(inst, meas, w, ihi, jhi))
    && (forall i', j' :: 0 <= i' < |w.sup| && 0 <= j' < |w.cus| && Lex(i', j', i, j) ==>
          !Below(hi, Val(inst, meas, w, i', j')))
  }

  /** min_val after position (i, j). */
  method LoAt(inst: Instance, meas: int, w: Work, i: int, j: int, g: Ext, lo: Ext, ghost ilo: int, ghost jlo: int)
    returns (lo2: Ext, ghost ilo2: int, ghost jlo2: int)
    requires Shape(inst, w) && ActiveLists(inst, w)
    requires LoState(inst, meas, w, i, j, lo, ilo, jlo) && i < |w.sup| && j < |w.cus|
    requires g == Val(inst, meas, w, i, j)
    ensures LoState(inst, meas, w, i, j + 1, lo2, ilo2, jlo2)
  {
    lo2, ilo2, jlo2 := lo, ilo, jlo;
    if Below(g, lo) {
      lo2, ilo2, jlo2 := g, i, j;
    }
    forall i', j' | 0 <= i' < |w.sup| && 0 <= j' < |w.cus| && Lex(i', j', i, j + 1)
      ensures !Below(Val(inst, meas, w, i', j'), lo2)
    {
      if Lex(i', j', i, j) {
        assert !Below(Val(inst, meas, w, i', j'), lo);
      } else {
        assert i' == i && j' == j;
      }
    }
  }

  /** max_val after position (i, j). */
  method HiAt(inst: Instance, meas: int, w: Work, i: int, j: int, g: Ext, hi: Ext, ghost ihi: int, ghost jhi: int)
    returns (hi2: Ext, ghost ihi2: int, ghost jhi2: int)
    requires Shape(inst, w) && ActiveLists(inst, w)
    requires HiState(inst, meas, w, i, j, hi, ihi, jhi) && i < |w.sup| && j < |w.cus|
    requires g == Val(inst, meas, w, i, j)
    ensures HiState(inst, meas, w, i, j + 1, hi2, ihi2, jhi2)
  {
    hi2, ihi2, jhi2 := hi, ihi, jhi;
    if Below(hi, g) {
      hi2 := g;
    }
    if Below(hi, g) || (i == 0 && j == 0) {
      ihi2, jhi2 := i, j;
    }
    forall i', j' | 0 <= i' < |w.sup| && 0 <= j' < |w.cus| && Lex(i', j', i, j + 1)
      ensures !Below(hi2, Val(inst, meas, w, i', j'))
    {
      if Lex(i', j', i, j) {
        assert !Below(hi, Val(inst, meas, w, i', j'));
      } else {
        assert i' == i && j' == j;
      }
    }
  }

  /** The least and the largest evaluation of the active pairs, min_val and
      max_val of the randomised greedy method. */
  method EvalRange(inst: Instance, meas: int, w: Work) returns (lo: real, hi: real)
    requires Shape(inst, w) && ActiveLists(inst, w) && |w.sup| > 0 && |w.cus| > 0
    ensures forall i, j :: 0 <= i < |w.sup| && 0 <= j < |w.cus| ==>
      lo <= Val(inst, meas, w, i, j).v <= hi
    ensures exists i, j :: 0 <= i < |w.sup| && 0 <= j < |w.cus| && Val(inst, meas, w, i, j).v == lo
    ensures exists i, j :: 0 <= i < |w.sup| && 0 <= j < |w.cus| && Val(inst, meas, w, i, j).v == hi
  {
    var minVal, maxVal := Infinite, Finite(0.0);
    ghost var ilo, jlo, ihi, jhi := -1, -1, -1, -1;
    var i := 0;
    while i < |w.sup|
      invariant LoState(inst, meas, w, i, 0, minVal, ilo, jlo)
      invariant HiState(inst, meas, w, i, 0, maxVal, ihi, jhi)
    {
      var j := 0;
      while j < |w.cus|
        invariant LoState(inst, meas, w, i, j, minVal, ilo, jlo)
        invariant HiState(inst, meas, w, i, j, maxVal, ihi, jhi)
      {
        ActiveEnds(inst, w, i, j);
        var g := GreedyValue(inst, meas, w.sup[i], w.cus[j], w.rs[w.sup[i]], w.rd[w.cus[j]]);
        minVal, ilo, jlo := LoAt(inst, meas, w, i, j, g, minVal, ilo, jlo);
        maxVal, ihi, jhi := HiAt(inst, meas, w, i, j, g, maxVal, ihi, jhi);
        j := j + 1;
      }
      RowEnd(|w.sup|, |w.cus|, i);
      i := i + 1;
    }
    lo, hi := minVal.v, maxVal.v;
    forall i', j' | 0 <= i' < |w.sup| && 0 <= j' < |w.cus|
      ensures lo <= Val(inst, meas, w, i', j').v <= hi
    {
      assert Lex(i', j', |w.sup|, 0);
    }
  }

  /** The positions before the start of row i + 1 are those before the end
      of row i. */
  lemma RowEnd(rows: int, cols: int, i: int)
    ensures forall i', j' :: 0 <= i' < rows && 0 <= j' < cols ==>
      (Lex(i', j', i + 1, 0) <==> Lex(i', j', i, cols))
  {
  }

  /** The restricted candidate list admits the pairs whose evaluation is
      at most min_val + alpha * (max_val - min_val) + tolval. */
  predicate Candidate(inst: Instance, meas: int, w: Work, i: int, j: int, bound: real)
    requires Shape(inst, w) && ActiveLists(inst, w) && 0 <= i < |w.sup| && 0 <= j < |w.cus|
  {
    Val(inst, meas, w, i, j).v <= bound
  }

  /** The admission threshold of the restricted candidate list. */
  function Threshold(lo: real, hi: real, alpha: real, tol: real): real {
    lo + alpha * (hi - lo) + tol
  }

  /** Every entry of the list encodes, as i * nn + j, a candidate pair. */
  ghost predicate ListSound(inst: Instance, meas: int, w: Work, bound: real, lst: seq<int>)
    requires Shape(inst, w) && ActiveLists(inst, w) && |w.cus| > 0
  {
    forall k :: 0 <= k < |lst| ==>
      && 0 <= lst[k] / |w.cus| < |w.sup|
      && Candidate(inst, meas, w, lst[k] / |w.cus|, lst[k] % |w.cus|, bound)
  }

  /** Every candidate pair scanned before (i, j) is in the list. */
  ghost predicate ListComplete(inst: Instance, meas: int, w: Work, bound: real, i: int, j: int, lst: seq<int>)
    requires Shape(inst, w) && ActiveLists(inst, w) && |w.cus| > 0
  {
    forall i', j' ::
      (0 <= i' < |w.sup| && 0 <= j' < |w.cus| && Lex(i', j', i, j) &&
       Candidate(inst, meas, w, i', j', bound))
      ==> i' * |w.cus| + j' in lst
  }

  /** The candidate list holds, encoded as i * nn + j, exactly the
      candidate pairs scanned before (i, j). */
  ghost predicate ListState(inst: Instance, meas: int, w: Work, bound: real, i: int, j: int, lst: seq<int>)
    requires Shape(inst, w) && ActiveLists(inst, w) && |w.cus| > 0
  {
    && 0 <= i <= |w.sup| && 0 <= j <= |w.cus|
    && ListSound(inst, meas, w, bound, lst)
    && ListComplete(inst, meas, w, bound, i, j, lst)
  }

  /** Appending the code of a candidate pair keeps the list sound. */
  lemma SoundAppend(inst: Instance, meas: int, w: Work, bound: real, i: int, j: int, lst: seq<int>)
    requires Shape(inst, w) && ActiveLists(inst, w) && |w.cus| > 0
    requires ListSound(inst, meas, w, bound, lst)
    requires 0 <= i < |w.sup| && 0 <= j < |w.cus| && Candidate(inst, meas, w, i, j, bound)
    ensures ListSound(inst, meas, w, bound, lst + [i * |w.cus| + j])
  {
    DivMod(i, j, |w.cus|);
    var lst2 := lst + [i * |w.cus| + j];
    forall k | 0 <= k < |lst2|
      ensures 0 <= lst2[k] / |w.cus| < |w.sup|
      ensures Candidate(inst, meas, w, lst2[k] / |w.cus|, lst2[k] % |w.cus|, bound)
    {
      if k < |lst| {
        assert lst2[k] == lst[k];
      }
    }
  }

  /** One step of the scan keeps the list complete: the pair (i, j) is in
      the new list when it is a candidate. */
  lemma CompleteStep(inst: Instance, meas: int, w: Work, bound: real, i: int, j: int, lst: seq<int>, lst2: seq<int>)
    requires Shape(inst, w) && ActiveLists(inst, w) && |w.cus| > 0
    requires ListComplete(inst, meas, w, bound, i, j, lst) && 0 <= i < |w.sup| && 0 <= j < |w.cus|
    requires forall c :: c in lst ==> c in lst2
    requires Candidate(inst, meas, w, i, j, bound) ==> i * |w.cus| + j in lst2
    ensures ListComplete(inst, meas, w, bound, i, j + 1, lst2)
  {
    forall i', j' | 0 <= i' < |w.sup| && 0 <= j' < |w.cus| && Lex(i', j', i, j + 1) &&
        Candidate(inst, meas, w, i', j', bound)
      ensures i' * |w.cus| + j' in lst2
    {
      if Lex(i', j', i, j) {
        assert i' * |w.cus| + j' in lst;
      }
    }
  }

  /** The body of the list-building scan. */
  method ListAt(inst: Instance, meas: int, w: Work, bound: real, i: int, j: int, lst: seq<int>)
    returns (lst2: seq<int>)
    requires Shape(inst, w) && ActiveLists(inst, w) && |w.cus| > 0
    requires ListState(inst, meas, w, bound, i, j, lst) && i < |w.sup| && j < |w.cus|
    ensures ListState(inst, meas, w, bound, i, j + 1, lst2)
  {
    ActiveEnds(inst, w, i, j);
    var g := GreedyValue(inst, meas, w.sup[i], w.cus[j], w.rs[w.sup[i]], w.rd[w.cus[j]]);
    assert g == Val(inst, meas, w, i, j);
    lst2 := lst;
    if g.v <= bound {
      SoundAppend(inst, meas, w, bound, i, j, lst);
      lst2 := lst + [i * |w.cus| + j];
    }
    CompleteStep(inst, meas, w, bound, i, j, lst, lst2);
  }

  /** A row scanned to its end is the start of the next row. */
  lemma NextRow(inst: Instance, meas: int, w: Work, bound: real, i: int, lst: seq<int>)
    requires Shape(inst, w) && ActiveLists(inst, w) && |w.cus| > 0 && 0 <= i < |w.sup|
    requires ListComplete(inst, meas, w, bound, i, |w.cus|, lst)
    ensures ListComplete(inst, meas, w, bound, i + 1, 0, lst)
  {
    forall i', j' | 0 <= i' < |w.sup| && 0 <= j' < |w.cus| && Lex(i', j', i + 1, 0)
      ensures Lex(i', j', i, |w.cus|)
    {
    }
  }

  /** After the last row the list holds exactly the candidate pairs. */
  lemma ListFinal(inst: Instance, meas: int, w: Work, bound: real, lst: seq<int>)
    requires Shape(inst, w) && ActiveLists(inst, w) && |w.cus| > 0
    requires ListComplete(inst, meas, w, bound, |w.sup|, 0, lst)
    ensures forall i, j ::
      (0 <= i < |w.sup| && 0 <= j < |w.cus| && Candidate(inst, meas, w, i, j, bound))
      ==> i * |w.cus| + j in lst
  {
    forall i', j' | 0 <= i' < |w.sup| && 0 <= j' < |w.cus| && Candidate(inst, meas, w, i', j', bound)
      ensures i' * |w.cus| + j' in lst
    {
      assert Lex(i', j', |w.sup|, 0);
    }
  }

  /** arc_lst: the candidate pairs, each encoded as i * nn + j. */
  method CandidateList(inst: Instance, meas: int, w: Work, bound: real) returns (lst: seq<int>)
    requires Shape(inst, w) && ActiveLists(inst, w) && |w.cus| > 0
    ensures forall k :: 0 <= k < |lst| ==>
      && 0 <= lst[k] / |w.cus| < |w.sup|
      && Candidate(inst, meas, w, lst[k] / |w.cus|, lst[k] % |w.cus|, bound)
    ensures forall i, j ::
      (0 <= i < |w.sup| && 0 <= j < |w.cus| && Candidate(inst, meas, w, i, j, bound))
      ==> i * |w.cus| + j in lst
  {
    lst := [];
    var i := 0;
    while i < |w.sup|
      invariant ListState(inst, meas, w, bound, i, 0, lst)
    {
      var j := 0;
      while j < |w.cus|
        invariant ListState(inst, meas, w, bound, i, j, lst)
      {
        lst := ListAt(inst, meas, w, bound, i, j, lst);
        j := j + 1;
      }
      NextRow(inst, meas, w, bound, i, lst);
      i := i + 1;
    }
    ListFinal(inst, meas, w, bound, lst);
  }

  /** The choice of the randomised greedy method: the evaluation range of
      the active pairs, then a uniformly drawn member of the candidate
      list (draw r), decoded back into positions. */
  method RandGreedyChoice(inst: Instance, meas: int, w: Work, alpha: real, tol: real, r: nat)
    returns (i: int, j: int, lo: real, hi: real)
    requires Shape(inst, w) && ActiveLists(inst, w) && |w.sup| > 0 && |w.cus| > 0
    requires alpha >= 0.0 && tol >= 0.0
    ensures 0 <= i < |w.sup| && 0 <= j < |w.cus|
    ensures forall i', j' :: 0 <= i' < |w.sup| && 0 <= j' < |w.cus| ==>
      lo <= Val(inst, meas, w, i', j').v <= hi
    ensures exists i', j' :: 0 <= i' < |w.sup| && 0 <= j' < |w.cus| && Val(inst, meas, w, i', j').v == lo
    ensures Candidate(inst, meas, w, i, j, Threshold(lo, hi, alpha, tol))
  {
    lo, hi := EvalRange(inst, meas, w);
    var bound := lo + alpha * (hi - lo) + tol;
    var lst := CandidateList(inst, meas, w, bound);
    ThresholdAbove(lo, hi, alpha, tol);
    ListNonEmpty(inst, meas, w, lo, bound, lst);
    var k := r % |lst|;
    var arc := lst[k];
    i := arc / |w.cus|;
    j := arc % |w.cus|;
  }

  /** The candidate list is never empty: a pair of least evaluation is
      always on it. */
  lemma ListNonEmpty(inst: Instance, meas: int, w: Work, lo: real, bound: real, lst: seq<int>)
    requires Shape(inst, w) && ActiveLists(inst, w) && |w.cus| > 0 && lo <= bound
    requires exists i', j' :: 0 <= i' < |w.sup| && 0 <= j' < |w.cus| && Val(inst, meas, w, i', j').v == lo
    requires forall i, j ::
      (0 <= i < |w.sup| && 0 <= j < |w.cus| && Candidate(inst, meas, w, i, j, bound))
      ==> i * |w.cus| + j in lst
    ensures |lst| > 0
  {
    var i0, j0 :| 0 <= i0 < |w.sup| && 0 <= j0 < |w.cus| && Val(inst, meas, w, i0, j0).v == lo;
    assert Candidate(inst, meas, w, i0, j0, bound);
    assert i0 * |w.cus| + j0 in lst;
  }

  /** The threshold is at least min_val when max_val is. */
  lemma ThresholdAbove(lo: real, hi: real, alpha: real, tol: real)
    requires lo <= hi && alpha >= 0.0 && tol >= 0.0
    ensures Threshold(lo, hi, alpha, tol) >= lo
  {
    assert alpha * (hi - lo) >= 0.0;
  }

  /** With alpha = 0 and no tolerance only pairs of least evaluation are
      candidates: the randomised greedy method is then a greedy method. */
  lemma CandidatesAtZero(inst: Instance, meas: int, w: Work, lo: real, hi: real, i: int, j: int)
    requires Shape(inst, w) && ActiveLists(inst, w) && 0 <= i < |w.sup| && 0 <= j < |w.cus|
    requires forall i', j' :: 0 <= i' < |w.sup| && 0 <= j' < |w.cus| ==> lo <= Val(inst, meas, w, i', j').v
    requires Candidate(inst, meas, w, i, j, Threshold(lo, hi, 0.0, 0.0))
    ensures forall i', j' :: 0 <= i' < |w.sup| && 0 <= j' < |w.cus| ==>
      !Below(Val(inst, meas, w, i', j'), Val(inst, meas, w, i, j))
  {
  }

  /** With alpha = 1 every active pair is a candidate: the randomised greedy
      method then picks a pair completely at random. */
  lemma CandidatesAtOne(inst: Instance, meas: int, w: Work, lo: real, hi: real, tol: real)
    requires Shape(inst, w) && ActiveLists(inst, w) && tol >= 0.0
    requires forall i', j' :: 0 <= i' < |w.sup| && 0 <= j' < |w.cus| ==>
      lo <= Val(inst, meas, w, i', j').v <= hi
    ensures forall i, j :: 0 <= i < |w.sup| && 0 <= j < |w.cus| ==>
      Candidate(inst, meas, w, i, j, Threshold(lo, hi, 1.0, tol))
  {
  }

  // ---------------------------------------------------------------------------
  // The three constructions
  // ---------------------------------------------------------------------------

  /** Greedy(): in each round saturate the first active pair of least
      evaluation under measure meas; then set up the basis, which always succeeds. */
  method Greedy(inst: Instance, s: Sol, meas: int) returns (ok: bool, s2: Sol)
    requires inst.Valid() && s.Shaped() && s.m == inst.m && s.n == inst.n
    ensures |s2.flow| == inst.m * inst.n && Transported(inst, s2.flow)
    ensures ok <==> FlowForest(inst, s2.flow)
    ensures s2.totalCost == FlowCost(inst.fcost, inst.tcost, s2.flow)
    ensures ok && ValidBasis(inst, s2)
  {
    var w := Start(inst);
    ghost var rounds := 0;
    while |w.sup| > 0 && |w.cus| > 0
      invariant WorkInv(inst, w) && Progress(inst, w, rounds) && Forested(inst, w)
      decreases |w.sup| + |w.cus|
    {
      var i, j := GreedyChoice(inst, meas, w);
      w := Saturate(inst, w, i, j, rounds);
      rounds := rounds + 1;
    }
    Finished(inst, w, rounds);
    ForestedFlow(inst, w);
    ok, s2 := SetBasicSolution(inst, s.(flow := w.flow));
  }

  /** RandSol(): in each round saturate a pair drawn at random, the
      supplier position first (draw t) and the customer position second
      (draw t + 1); then set up the basis, which always succeeds. */
  method RandSol(inst: Instance, s: Sol, rand: nat -> nat) returns (ok: bool, s2: Sol)
    requires inst.Valid() && s.Shaped() && s.m == inst.m && s.n == inst.n
    ensures |s2.flow| == inst.m * inst.n && Transported(inst, s2.flow)
    ensures ok <==> FlowForest(inst, s2.flow)
    ensures s2.totalCost == FlowCost(inst.fcost, inst.tcost, s2.flow)
    ensures ok && ValidBasis(inst, s2)
  {
    var w := Start(inst);
    ghost var rounds := 0;
    var t := 0;
    while |w.sup| > 0 && |w.cus| > 0
      invariant WorkInv(inst, w) && Progress(inst, w, rounds) && Forested(inst, w)
      decreases |w.sup| + |w.cus|
    {
      var i := rand(t) % |w.sup|;
      var j := rand(t + 1) % |w.cus|;
      t := t + 2;
      w := Saturate(inst, w, i, j, rounds);
      rounds := rounds + 1;
    }
    Finished(inst, w, rounds);
    ForestedFlow(inst, w);
    ok, s2 := SetBasicSolution(inst, s.(flow := w.flow));
  }

  /** RandGreedy(alpha): in each round saturate a pair drawn (draw t) from
      the restricted candidate list; then set up the basis, which always succeeds. */
  method RandGreedy(inst: Instance, s: Sol, meas: int, alpha: real, tol: real, rand: nat -> nat)
    returns (ok: bool, s2: Sol)
    requires inst.Valid() && s.Shaped() && s.m == inst.m && s.n == inst.n
    requires alpha >= 0.0 && tol >= 0.0
    ensures |s2.flow| == inst.m * inst.n && Transported(inst, s2.flow)
    ensures ok <==> FlowForest(inst, s2.flow)
    ensures s2.totalCost == FlowCost(inst.fcost, inst.tcost, s2.flow)
    ensures ok && ValidBasis(inst, s2)
  {
    var w := Start(inst);
    ghost var rounds := 0;
    var t := 0;
    while |w.sup| > 0 && |w.cus| > 0
      invariant WorkInv(inst, w) && Progress(inst, w, rounds) && Forested(inst, w)
      decreases |w.sup| + |w.cus|
    {
      var i, j, _, _ := RandGreedyChoice(inst, meas, w, alpha, tol, rand(t));
      t := t + 1;
      w := Saturate(inst, w, i, j, rounds);
      rounds := rounds + 1;
    }
    Finished(inst, w, rounds);
    ForestedFlow(inst, w);
    ok, s2 := SetBasicSolution(inst, s.(flow := w.flow));
  }
}
