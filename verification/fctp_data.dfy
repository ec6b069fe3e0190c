/** Problem data of the Fixed-Charge Transportation Problem: m suppliers
    (nodes 0..m-1), n customers (nodes m..m+n-1) and the complete bipartite
    arc set, arc i*n+j leading from supplier i to customer j.  Costs are
    modelled as integers. */
module FctpData {

  /** A value that may be absent (a Java reference that may be null). */
  datatype Option<T> = None | Some(value: T)

  /** Java's Integer.MAX_VALUE, used as "no bound yet" for flow changes. */
  const IntMax: int := 0x7fff_ffff

  datatype Instance = Instance(
    m: int,
    n: int,
    supply: seq<int>,
    demand: seq<int>,
    tcost: seq<int>,
    fcost: seq<int>)
  {
    /** Shape and sign conditions every instance satisfies. */
    ghost predicate Valid() {
      && m >= 1 && n >= 1
      && |supply| == m && |demand| == n
      && |tcost| == m * n && |fcost| == m * n
      && (forall i :: 0 <= i < m ==> 0 < supply[i] < IntMax)
      && (forall j :: 0 <= j < n ==> 0 < demand[j] < IntMax)
      && (forall a :: 0 <= a < m * n ==> tcost[a] >= 0 && fcost[a] >= 0)
    }

    function Nodes(): int { m + n }

    function Arcs(): int { m * n }
  }

  // ---------------------------------------------------------------------------
  // Arc indexing
  // ---------------------------------------------------------------------------

  lemma MulAtLeast(k: int, n: int)
    requires n > 0 && k >= 1
    ensures k * n >= n
  {
    if k > 1 {
      MulAtLeast(k - 1, n);
      assert k * n == (k - 1) * n + n;
    }
  }

  /** Arc i*n+j decodes back to supplier i and customer j. */
  lemma DivMod(i: int, j: int, n: int)
    requires n > 0 && 0 <= j < n
    ensures (i * n + j) / n == i && (i * n + j) % n == j
  {
    var a := i * n + j;
    var q := a / n;
    var r := a % n;
    assert a == q * n + r;
    assert (q - i) * n == j - r;
    if q - i >= 1 {
      MulAtLeast(q - i, n);
    } else if q - i <= -1 {
      MulAtLeast(i - q, n);
    }
  }

  /** Every arc id in range decodes to a supplier and a customer in range. */
  lemma ArcRange(a: int, m: int, n: int)
    requires m >= 1 && n >= 1 && 0 <= a < m * n
    ensures 0 <= a / n < m && 0 <= a % n < n
    ensures a == (a / n) * n + a % n
  {
    var i := a / n;
    assert a == i * n + a % n;
  }

  /** An arc id built from a supplier and a customer in range is in range. */
  lemma ArcOfRange(i: int, j: int, m: int, n: int)
    requires 0 <= i < m && 0 <= j < n
    ensures 0 <= i * n + j < m * n
  {
    if m - i - 1 >= 1 {
      MulAtLeast(m - i - 1, n);
    }
    assert m * n == i * n + (m - i - 1) * n + n;
    if i >= 1 { MulAtLeast(i, n); }
  }

  /** The id of the arc from supplier i to customer j. */
  function ArcId(n: int, i: int, j: int): int {
    i * n + j
  }

  /** The supplier node at the tail of an arc. */
  function Tail(inst: Instance, a: int): (t: int)
    requires inst.n >= 1
    ensures inst.m >= 1 && 0 <= a < inst.m * inst.n ==> 0 <= t < inst.m
  {
    if inst.m >= 1 && 0 <= a < inst.m * inst.n then
      ArcRange(a, inst.m, inst.n);
      a / inst.n
    else a / inst.n
  }

  /** The customer node at the head of an arc. */
  function Head(inst: Instance, a: int): (h: int)
    requires inst.n >= 1
    ensures inst.m <= h < inst.m + inst.n
  {
    inst.m + a % inst.n
  }

  /** The arc joining two adjacent nodes of the basis tree, one a supplier
      and one a customer, in whichever order they are given. */
  function ArcBetween(inst: Instance, x: int, y: int): int
  {
    if y < inst.m then y * inst.n + (x - inst.m) else x * inst.n + (y - inst.m)
  }

  /** True when x and y are a supplier and a customer (in either order). */
  predicate Adjacent(inst: Instance, x: int, y: int) {
    || (0 <= x < inst.m && inst.m <= y < inst.m + inst.n)
    || (0 <= y < inst.m && inst.m <= x < inst.m + inst.n)
  }

  lemma ArcBetweenEnds(inst: Instance, x: int, y: int)
    requires inst.m >= 1 && inst.n >= 1 && Adjacent(inst, x, y)
    ensures 0 <= ArcBetween(inst, x, y) < inst.m * inst.n
    ensures var a := ArcBetween(inst, x, y);
      (Tail(inst, a) == x && Head(inst, a) == y) || (Tail(inst, a) == y && Head(inst, a) == x)
    ensures ArcBetween(inst, x, y) == ArcBetween(inst, y, x)
  {
    if y < inst.m {
      DivMod(y, x - inst.m, inst.n);
      ArcOfRange(y, x - inst.m, inst.m, inst.n);
    } else {
      DivMod(x, y - inst.m, inst.n);
      ArcOfRange(x, y - inst.m, inst.m, inst.n);
    }
  }

  /** An arc is the arc between its own tail and head, and only between those. */
  lemma ArcBetweenUnique(inst: Instance, x: int, y: int, a: int)
    requires inst.m >= 1 && inst.n >= 1 && Adjacent(inst, x, y) && 0 <= a < inst.m * inst.n
    ensures ArcBetween(inst, x, y) == a <==>
      ((Tail(inst, a) == x && Head(inst, a) == y) || (Tail(inst, a) == y && Head(inst, a) == x))
  {
    ArcBetweenEnds(inst, x, y);
    ArcRange(a, inst.m, inst.n);
    var b := ArcBetween(inst, x, y);
    ArcRange(b, inst.m, inst.n);
  }

  /** The tail/head tables built by allocMem: arc i*n+j leaves supplier i
      and enters customer node m+j. */
  method AllocArcs(m: int, n: int) returns (arcT: seq<int>, arcH: seq<int>)
    requires m >= 1 && n >= 1
    ensures |arcT| == m * n && |arcH| == m * n
    ensures forall i, j :: 0 <= i < m && 0 <= j < n ==>
      0 <= ArcId(n, i, j) < m * n && arcT[ArcId(n, i, j)] == i && arcH[ArcId(n, i, j)] == m + j
    ensures forall a :: 0 <= a < m * n ==> arcT[a] == a / n && arcH[a] == m + a % n
  {
    arcT := [];
    arcH := [];
    var i := 0;
    while i < m
      invariant 0 <= i <= m
      invariant |arcT| == ArcId(n, i, 0) && |arcH| == |arcT|
      invariant forall a :: 0 <= a < |arcT| ==> arcT[a] == a / n && arcH[a] == m + a % n
    {
      var j := 0;
      while j < n
        invariant 0 <= j <= n
        invariant |arcT| == ArcId(n, i, j) && |arcH| == |arcT|
        invariant forall a :: 0 <= a < |arcT| ==> arcT[a] == a / n && arcH[a] == m + a % n
      {
        DivMod(i, j, n);
        arcT := arcT + [i];
        arcH := arcH + [m + j];
        j := j + 1;
      }
      assert ArcId(n, i, n) == ArcId(n, i + 1, 0);
      i := i + 1;
    }
    assert ArcId(n, m, 0) == m * n;
    forall i, j | 0 <= i < m && 0 <= j < n
      ensures 0 <= ArcId(n, i, j) < m * n && arcT[ArcId(n, i, j)] == i && arcH[ArcId(n, i, j)] == m + j
    {
      ArcOfRange(i, j, m, n);
      DivMod(i, j, n);
    }
  }

  /** getCap without explicit capacities: the smaller of the arc's supply
      and demand. */
  function GetCap(inst: Instance, a: int): (c: int)
    requires inst.Valid() && 0 <= a < inst.Arcs()
    ensures c == inst.supply[Tail(inst, a)] || c == inst.demand[a % inst.n]
    ensures c <= inst.supply[Tail(inst, a)] && c <= inst.demand[a % inst.n]
    ensures c > 0
  {
    ArcRange(a, inst.m, inst.n);
    var s := inst.supply[a / inst.n];
    var d := inst.demand[a % inst.n];
    if s < d then s else d
  }

  /** getCap(i, j): capacity of the arc from supplier i to customer j. */
  function GetCapIJ(inst: Instance, i: int, j: int): (c: int)
    requires inst.Valid() && 0 <= i < inst.m && 0 <= j < inst.n
    ensures c <= inst.supply[i] && c <= inst.demand[j]
    ensures c == inst.supply[i] || c == inst.demand[j]
  {
    ArcOfRange(i, j, inst.m, inst.n);
    DivMod(i, j, inst.n);
    GetCap(inst, i * inst.n + j)
  }

  // ---------------------------------------------------------------------------
  // Costs
  // ---------------------------------------------------------------------------

  /** Cost contributed by one arc carrying flow f: the fixed cost plus the
      unit cost times f when f is positive, nothing otherwise. */
  function ArcCost(inst: Instance, a: int, f: int): int
    requires 0 <= a < |inst.tcost| && a < |inst.fcost|
  {
    ArcCostOf(inst.fcost, inst.tcost, a, f)
  }

  function ArcCostOf(fcost: seq<int>, tcost: seq<int>, a: int, f: int): int
    requires 0 <= a < |tcost| && a < |fcost|
  {
    if f > 0 then fcost[a] + tcost[a] * f else 0
  }

  /** Total cost of the first k arcs of a flow vector. */
  function CostPrefix(fcost: seq<int>, tcost: seq<int>, flow: seq<int>, k: int): int
    requires 0 <= k <= |flow| && |flow| <= |tcost| && |flow| <= |fcost|
  {
    if k == 0 then 0 else CostPrefix(fcost, tcost, flow, k - 1) + ArcCostOf(fcost, tcost, k - 1, flow[k - 1])
  }

  /** Total cost of a flow vector: the sum over arcs with positive flow of
      fixed plus variable cost. */
  function FlowCost(fcost: seq<int>, tcost: seq<int>, flow: seq<int>): int
    requires |flow| <= |tcost| && |flow| <= |fcost|
  {
    CostPrefix(fcost, tcost, flow, |flow|)
  }

  /** Total cost of a flow vector under an instance's costs. */
  function Cost(inst: Instance, flow: seq<int>): int
    requires |flow| <= |inst.tcost| && |flow| <= |inst.fcost|
  {
    FlowCost(inst.fcost, inst.tcost, flow)
  }

  /** With non-negative fixed and unit costs, every prefix of the cost sum
      is non-negative. */
  lemma {:induction false} FlowCostNonNeg(fcost: seq<int>, tcost: seq<int>, flow: seq<int>, k: int)
    requires |flow| <= |fcost| && |flow| <= |tcost| && 0 <= k <= |flow|
    requires forall a :: 0 <= a < |flow| ==> fcost[a] >= 0 && tcost[a] >= 0
    ensures CostPrefix(fcost, tcost, flow, k) >= 0
  {
    if k > 0 {
      FlowCostNonNeg(fcost, tcost, flow, k - 1);
      if flow[k - 1] > 0 {
        assert tcost[k - 1] * flow[k - 1] >= 0;
      }
    }
  }

  /** Costs are never negative. */
  lemma CostNonNeg(inst: Instance, flow: seq<int>)
    requires inst.Valid() && |flow| == inst.Arcs()
    ensures Cost(inst, flow) >= 0
  {
    FlowCostNonNeg(inst.fcost, inst.tcost, flow, |flow|);
  }

  lemma {:induction false} CostPrefixUpdate(fcost: seq<int>, tcost: seq<int>, flow: seq<int>, a: int, f: int, k: int)
    requires 0 <= a < |flow| && |flow| <= |tcost| && |flow| <= |fcost|
    requires 0 <= k <= |flow|
    ensures CostPrefix(fcost, tcost, flow[a := f], k) ==
      CostPrefix(fcost, tcost, flow, k) +
      (if a < k then ArcCostOf(fcost, tcost, a, f) - ArcCostOf(fcost, tcost, a, flow[a]) else 0)
  {
    if k > 0 {
      CostPrefixUpdate(fcost, tcost, flow, a, f, k - 1);
    }
  }

  /** Changing the flow of one arc changes the cost by that arc's cost change
      and by nothing else. */
  lemma CostUpdate(inst: Instance, flow: seq<int>, a: int, f: int)
    requires 0 <= a < |flow| && |flow| <= |inst.tcost| && |flow| <= |inst.fcost|
    ensures Cost(inst, flow[a := f]) == Cost(inst, flow) + ArcCost(inst, a, f) - ArcCost(inst, a, flow[a])
  {
    CostPrefixUpdate(inst.fcost, inst.tcost, flow, a, f, |flow|);
  }

  // ---------------------------------------------------------------------------
  // Node balances: outflow of a supplier, inflow of a customer
  // ---------------------------------------------------------------------------

  /** Flow leaving supplier i on its first k arcs. */
  function RowSum(inst: Instance, flow: seq<int>, i: int, k: int): int
    requires inst.m >= 1 && inst.n >= 1 && |flow| == inst.m * inst.n
    requires 0 <= i < inst.m && 0 <= k <= inst.n
  {
    if k == 0 then 0
    else
      ArcOfRange(i, k - 1, inst.m, inst.n);
      RowSum(inst, flow, i, k - 1) + flow[i * inst.n + k - 1]
  }

  /** Flow entering customer j from the first k suppliers. */
  function ColSum(inst: Instance, flow: seq<int>, j: int, k: int): int
    requires inst.m >= 1 && inst.n >= 1 && |flow| == inst.m * inst.n
    requires 0 <= j < inst.n && 0 <= k <= inst.m
  {
    if k == 0 then 0
    else
      ArcOfRange(k - 1, j, inst.m, inst.n);
      ColSum(inst, flow, j, k - 1) + flow[(k - 1) * inst.n + j]
  }

  /** Outflow of a supplier node, inflow of a customer node. */
  function Balance(inst: Instance, flow: seq<int>, v: int): int
    requires inst.m >= 1 && inst.n >= 1 && |flow| == inst.m * inst.n
    requires 0 <= v < inst.m + inst.n
  {
    if v < inst.m then RowSum(inst, flow, v, inst.n) else ColSum(inst, flow, v - inst.m, inst.m)
  }

  lemma {:induction false} RowSumUpdate(inst: Instance, flow: seq<int>, a: int, c: int, i: int, k: int)
    requires inst.m >= 1 && inst.n >= 1 && |flow| == inst.m * inst.n
    requires 0 <= i < inst.m && 0 <= k <= inst.n && 0 <= a < |flow|
    ensures RowSum(inst, flow[a := flow[a] + c], i, k) ==
      RowSum(inst, flow, i, k) + (if a / inst.n == i && a % inst.n < k then c else 0)
  {
    if k > 0 {
      RowSumUpdate(inst, flow, a, c, i, k - 1);
      ArcOfRange(i, k - 1, inst.m, inst.n);
      var x := i * inst.n + k - 1;
      var flow' := flow[a := flow[a] + c];
      assert RowSum(inst, flow', i, k) == RowSum(inst, flow', i, k - 1) + flow'[x];
      assert RowSum(inst, flow, i, k) == RowSum(inst, flow, i, k - 1) + flow[x];
      DivMod(i, k - 1, inst.n);
      ArcRange(a, inst.m, inst.n);
      if a != x {
        assert flow'[x] == flow[x];
        assert !(a / inst.n == i && a % inst.n == k - 1);
      } else {
        assert flow'[x] == flow[x] + c;
      }
    }
  }

  lemma {:induction false} ColSumUpdate(inst: Instance, flow: seq<int>, a: int, c: int, j: int, k: int)
    requires inst.m >= 1 && inst.n >= 1 && |flow| == inst.m * inst.n
    requires 0 <= j < inst.n && 0 <= k <= inst.m && 0 <= a < |flow|
    ensures ColSum(inst, flow[a := flow[a] + c], j, k) ==
      ColSum(inst, flow, j, k) + (if a % inst.n == j && a / inst.n < k then c else 0)
  {
    if k > 0 {
      ColSumUpdate(inst, flow, a, c, j, k - 1);
      ArcOfRange(k - 1, j, inst.m, inst.n);
      var x := (k - 1) * inst.n + j;
      var flow' := flow[a := flow[a] + c];
      assert ColSum(inst, flow', j, k) == ColSum(inst, flow', j, k - 1) + flow'[x];
      assert ColSum(inst, flow, j, k) == ColSum(inst, flow, j, k - 1) + flow[x];
      DivMod(k - 1, j, inst.n);
      ArcRange(a, inst.m, inst.n);
      if a != x {
        assert flow'[x] == flow[x];
        assert !(a / inst.n == k - 1 && a % inst.n == j);
      } else {
        assert flow'[x] == flow[x] + c;
      }
    }
  }

  /** Changing the flow of arc a by c changes the balance of its two end
      nodes by c and leaves every other balance alone. */
  lemma BalanceUpdate(inst: Instance, flow: seq<int>, a: int, c: int, v: int)
    requires inst.m >= 1 && inst.n >= 1 && |flow| == inst.m * inst.n
    requires 0 <= a < |flow| && 0 <= v < inst.m + inst.n
    ensures Balance(inst, flow[a := flow[a] + c], v) ==
      Balance(inst, flow, v) + (if v == Tail(inst, a) || v == Head(inst, a) then c else 0)
  {
    ArcRange(a, inst.m, inst.n);
    if v < inst.m {
      RowSumUpdate(inst, flow, a, c, v, inst.n);
    } else {
      ColSumUpdate(inst, flow, a, c, v - inst.m, inst.m);
    }
  }
}
