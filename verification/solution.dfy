/** A basic solution of the FCTP as the solution object stores it: arc
    statuses, the basis tree as parent and subtree-size arrays, the flows and
    the total cost.  Java's arrays become sequences, so copies never alias. */
module Solution {
  import opened FctpData

  /** Arc status; the Java code stores these as the integers 0, 1 and 2. */
  datatype Status = NonBas0 | Basic | NonBasU

  /** The integer code of a status (NONBAS0 = 0, BASIC = 1, NONBASU = 2). */
  function Code(s: Status): (c: int)
    ensures 0 <= c <= 2
    ensures c == 1 <==> s == Basic
  {
    match s
    case NonBas0 => 0
    case Basic => 1
    case NonBasU => 2
  }

  lemma CodeInjective(s: Status, t: Status)
    ensures Code(s) == Code(t) <==> s == t
  {
  }

  datatype Sol = Sol(
    m: int,
    n: int,
    arcStat: seq<Status>,
    treeP: seq<int>,
    treeT: seq<int>,
    totalCost: int,
    flow: seq<int>)
  {
    /** The array lengths fixed by the allocation for m suppliers and n customers. */
    predicate Shaped() {
      && m >= 1 && n >= 1
      && |arcStat| == m * n && |flow| == m * n
      && |treeP| == m + n && |treeT| == m + n
    }
  }

  /** A freshly allocated solution object: Java zero-initialises every array,
      so all arcs are NONBAS0 with flow 0. */
  function NewSol(m: int, n: int): (s: Sol)
    requires m >= 1 && n >= 1
    ensures s.Shaped() && s.m == m && s.n == n && s.totalCost == 0
    ensures forall a :: 0 <= a < m * n ==> s.flow[a] == 0 && s.arcStat[a] == NonBas0
  {
    MulPos(m, n);
    Sol(m, n, seq(m * n, _ => NonBas0), seq(m + n, _ => 0), seq(m + n, _ => 0), 0, seq(m * n, _ => 0))
  }

  lemma MulPos(m: int, n: int)
    requires m >= 1 && n >= 1
    ensures m * n >= 1
  {
    MulAtLeast(m, n);
  }

  /** Overwrite: copies the four arrays and the cost of src into dst when both
      were allocated for the same m and n, and leaves dst alone otherwise. */
  function Overwrite(dst: Sol, src: Sol): (r: Sol)
    requires dst.Shaped() && src.Shaped()
    ensures dst.m == src.m && dst.n == src.n ==> r == src
    ensures !(dst.m == src.m && dst.n == src.n) ==> r == dst
  {
    if dst.m == src.m && dst.n == src.n then
      dst.(arcStat := src.arcStat[..|dst.arcStat|], treeP := src.treeP[..|dst.treeP|],
           treeT := src.treeT[..|dst.treeT|], flow := src.flow[..|dst.flow|],
           totalCost := src.totalCost)
    else
      dst
  }

  /** The copy constructor: a new object of the source's size, overwritten by it. */
  function Copy(src: Sol): (r: Sol)
    requires src.Shaped()
    ensures r == src
  {
    Overwrite(NewSol(src.m, src.n), src)
  }

  // ---------------------------------------------------------------------------
  // Costs
  // ---------------------------------------------------------------------------

  /** Sum of fcost + tcost * flow over the arcs with positive flow. */
  method SumCost(flow: seq<int>, fcost: seq<int>, tcost: seq<int>) returns (c: int)
    requires |flow| <= |fcost| && |flow| <= |tcost|
    ensures c == FlowCost(fcost, tcost, flow)
  {
    c := 0;
    var arc := 0;
    while arc < |flow|
      invariant 0 <= arc <= |flow|
      invariant c == CostPrefix(fcost, tcost, flow, arc)
    {
      if flow[arc] > 0 {
        c := c + fcost[arc] + tcost[arc] * flow[arc];
      }
      arc := arc + 1;
    }
  }

  /** ComputeCost(fcost, tcost): sets totalCost to the cost of the stored flows. */
  method ComputeCost(s: Sol, fcost: seq<int>, tcost: seq<int>) returns (r: Sol)
    requires |s.flow| <= |fcost| && |s.flow| <= |tcost|
    ensures r.totalCost == FlowCost(fcost, tcost, s.flow)
    ensures r.(totalCost := s.totalCost) == s
  {
    var c := SumCost(s.flow, fcost, tcost);
    r := s.(totalCost := c);
  }

  /** returnCost: the same sum, without touching the solution. */
  method ReturnCost(s: Sol, fcost: seq<int>, tcost: seq<int>) returns (c: int)
    requires |s.flow| <= |fcost| && |s.flow| <= |tcost|
    ensures c == FlowCost(fcost, tcost, s.flow)
  {
    c := SumCost(s.flow, fcost, tcost);
  }

  /** ComputeCost(arcFlow, fcost, tcost): the cost of an arbitrary flow vector. */
  method ComputeCostOf(arcFlow: seq<int>, fcost: seq<int>, tcost: seq<int>) returns (c: int)
    requires |arcFlow| <= |fcost| && |arcFlow| <= |tcost|
    ensures c == FlowCost(fcost, tcost, arcFlow)
  {
    c := SumCost(arcFlow, fcost, tcost);
  }

  // ---------------------------------------------------------------------------
  // Comparisons
  // ---------------------------------------------------------------------------

  /** compareTo: orders solutions by total cost. */
  function CompareTo(a: Sol, b: Sol): (c: int)
    ensures c == 1 <==> a.totalCost > b.totalCost
    ensures c == -1 <==> a.totalCost < b.totalCost
    ensures c == 0 <==> a.totalCost == b.totalCost
  {
    if a.totalCost > b.totalCost then 1
    else if a.totalCost < b.totalCost then -1
    else 0
  }

  /** compareTo is antisymmetric and transitive, so it sorts by cost. */
  lemma CompareToOrder(a: Sol, b: Sol, c: Sol)
    ensures CompareTo(a, b) == -CompareTo(b, a)
    ensures CompareTo(a, b) <= 0 && CompareTo(b, c) <= 0 ==> CompareTo(a, c) <= 0
  {
  }

  function Abs(x: int): int { if x < 0 then -x else x }

  /** equalTo: same flow vector (length and entries) and costs within tol. */
  function EqualTo(a: Sol, b: Sol, tol: int): (e: bool)
    ensures e ==> a.flow == b.flow && -tol <= a.totalCost - b.totalCost <= tol
    ensures a.flow == b.flow && -tol <= a.totalCost - b.totalCost <= tol ==> e
  {
    if |b.flow| != |a.flow| then false
    else if Abs(a.totalCost - b.totalCost) > tol then false
    else a.flow == b.flow
  }

  /** equalTo is reflexive for a non-negative tolerance and symmetric. */
  lemma EqualToProps(a: Sol, b: Sol, tol: int)
    ensures tol >= 0 ==> EqualTo(a, a, tol)
    ensures EqualTo(a, b, tol) == EqualTo(b, a, tol)
  {
  }

  /** containedIn: true when some member of the pool is equalTo s. */
  method ContainedIn(s: Sol, pool: seq<Sol>, tol: int) returns (b: bool)
    ensures b <==> exists i :: 0 <= i < |pool| && EqualTo(s, pool[i], tol)
  {
    var k := 0;
    while k < |pool|
      invariant 0 <= k <= |pool|
      invariant forall i :: 0 <= i < k ==> !EqualTo(s, pool[i], tol)
    {
      if EqualTo(s, pool[k], tol) {
        return true;
      }
      k := k + 1;
    }
    return false;
  }

  // ---------------------------------------------------------------------------
  // Distances
  // ---------------------------------------------------------------------------

  /** L1 distance of the first k entries of two flow vectors. */
  ghost function L1(x: seq<int>, y: seq<int>, k: int): int
    requires 0 <= k <= |x| && k <= |y|
  {
    if k == 0 then 0 else L1(x, y, k - 1) + Abs(x[k - 1] - y[k - 1])
  }

  /** DistanceTo: L1 distance of the flow vectors, Integer.MAX_VALUE when the
      lengths differ. */
  method DistanceTo(a: Sol, b: Sol) returns (d: int)
    ensures |a.flow| != |b.flow| ==> d == IntMax
    ensures |a.flow| == |b.flow| ==> d == L1(a.flow, b.flow, |a.flow|)
  {
    if |b.flow| != |a.flow| {
      return IntMax;
    }
    d := 0;
    var arc := 0;
    while arc < |b.flow|
      invariant 0 <= arc <= |b.flow|
      invariant d == L1(a.flow, b.flow, arc)
    {
      d := d + Abs(a.flow[arc] - b.flow[arc]);
      arc := arc + 1;
    }
  }

  /** The L1 distance is symmetric, never negative, and zero exactly between
      equal vectors. */
  lemma {:induction false} L1Props(x: seq<int>, y: seq<int>, k: int)
    requires 0 <= k <= |x| && k <= |y|
    ensures L1(x, y, k) == L1(y, x, k)
    ensures L1(x, y, k) >= 0
    ensures L1(x, y, k) == 0 <==> x[..k] == y[..k]
  {
    if k > 0 {
      L1Props(x, y, k - 1);
      assert x[..k] == x[..k - 1] + [x[k - 1]];
      assert y[..k] == y[..k - 1] + [y[k - 1]];
    }
  }

  /** Number of arcs among the first k whose statuses differ. */
  ghost function StatDiff(x: seq<Status>, y: seq<Status>, k: int): int
    requires 0 <= k <= |x| && k <= |y|
  {
    if k == 0 then 0 else StatDiff(x, y, k - 1) + (if x[k - 1] != y[k - 1] then 1 else 0)
  }

  /** basDistTo: the number of arcs whose status differs, Integer.MAX_VALUE
      when the lengths differ. */
  method BasDistTo(a: Sol, b: Sol) returns (d: int)
    ensures |a.arcStat| != |b.arcStat| ==> d == IntMax
    ensures |a.arcStat| == |b.arcStat| ==> d == StatDiff(a.arcStat, b.arcStat, |a.arcStat|)
  {
    if |b.arcStat| != |a.arcStat| {
      return IntMax;
    }
    d := 0;
    var arc := 0;
    while arc < |b.arcStat|
      invariant 0 <= arc <= |b.arcStat|
      invariant d == StatDiff(a.arcStat, b.arcStat, arc)
    {
      if Code(a.arcStat[arc]) != Code(b.arcStat[arc]) {
        CodeInjective(a.arcStat[arc], b.arcStat[arc]);
        d := d + 1;
      } else {
        CodeInjective(a.arcStat[arc], b.arcStat[arc]);
      }
      arc := arc + 1;
    }
  }

  /** The status distance is symmetric, bounded by the length, and zero
      exactly between equal status vectors. */
  lemma {:induction false} StatDiffProps(x: seq<Status>, y: seq<Status>, k: int)
    requires 0 <= k <= |x| && k <= |y|
    ensures StatDiff(x, y, k) == StatDiff(y, x, k)
    ensures 0 <= StatDiff(x, y, k) <= k
    ensures StatDiff(x, y, k) == 0 <==> x[..k] == y[..k]
  {
    if k > 0 {
      StatDiffProps(x, y, k - 1);
      assert x[..k] == x[..k - 1] + [x[k - 1]];
      assert y[..k] == y[..k - 1] + [y[k - 1]];
    }
  }

  // ---------------------------------------------------------------------------
  // Counts
  // ---------------------------------------------------------------------------

  /** The arcs among the first k whose status is BASIC. */
  ghost function BasicSet(st: seq<Status>, k: int): set<int>
    requires 0 <= k <= |st|
  {
    if k == 0 then {} else BasicSet(st, k - 1) + (if st[k - 1] == Basic then {k - 1} else {})
  }

  lemma {:induction false} BasicSetMem(st: seq<Status>, k: int, a: int)
    requires 0 <= k <= |st|
    ensures a in BasicSet(st, k) <==> 0 <= a < k && st[a] == Basic
  {
    if k > 0 {
      BasicSetMem(st, k - 1, a);
    }
  }

  /** num_basic: the number of arcs with status code 1. */
  method NumBasic(s: Sol) returns (count: int)
    ensures count == |BasicSet(s.arcStat, |s.arcStat|)|
  {
    count := 0;
    var arc := 0;
    while arc < |s.arcStat|
      invariant 0 <= arc <= |s.arcStat|
      invariant count == |BasicSet(s.arcStat, arc)|
    {
      BasicSetMem(s.arcStat, arc, arc);
      if Code(s.arcStat[arc]) == 1 {
        count := count + 1;
      }
      arc := arc + 1;
    }
  }

  /** Number of arcs among the first k with positive flow. */
  ghost function PosCount(flow: seq<int>, k: int): int
    requires 0 <= k <= |flow|
  {
    if k == 0 then 0 else PosCount(flow, k - 1) + (if flow[k - 1] > 0 then 1 else 0)
  }

  lemma {:induction false} PosCountBounds(flow: seq<int>, k: int)
    requires 0 <= k <= |flow|
    ensures 0 <= PosCount(flow, k) <= k
    ensures PosCount(flow, k) == 0 <==> forall a :: 0 <= a < k ==> flow[a] <= 0
  {
    if k > 0 {
      PosCountBounds(flow, k - 1);
    }
  }

  method CountPositive(flow: seq<int>) returns (count: int)
    ensures count == PosCount(flow, |flow|)
  {
    count := 0;
    var k := 0;
    while k < |flow|
      invariant 0 <= k <= |flow|
      invariant count == PosCount(flow, k)
    {
      if flow[k] > 0 {
        count := count + 1;
      }
      k := k + 1;
    }
  }

  /** Java's int division, which truncates toward zero. */
  function JavaDiv(a: int, b: int): int
    requires b > 0
  {
    if a >= 0 then a / b else -((-a) / b)
  }

  /** get_rel_pos_flow as written: (m+n-1 - count) / (m+n-1) in int
      arithmetic, truncated toward zero.  While fewer than 2(m+n-1) arcs
      carry flow (as in every basic solution) the fraction collapses to 0 or
      1; from 2(m+n-1) arcs on it even turns negative. */
  method RelPosFlowAsWritten(s: Sol) returns (q: int)
    requires s.m >= 1 && s.n >= 1
    ensures var c := PosCount(s.flow, |s.flow|);
      0 <= c <= s.m + s.n - 1 ==> (q == 1 <==> c == 0) && (q == 0 <==> c > 0)
    ensures var c := PosCount(s.flow, |s.flow|);
      (q == 0 <==> 0 < c < 2 * (s.m + s.n - 1)) && (q < 0 <==> c >= 2 * (s.m + s.n - 1))
  {
    var count := CountPositive(s.flow);
    PosCountBounds(s.flow, |s.flow|);
    q := JavaDiv(s.n + s.m - 1 - count, s.n + s.m - 1);
  }

  /** get_rel_pos_flow as evidently intended: the fraction of the m+n-1 basic
      positions whose flow is not positive, as a real number. */
  method RelPosFlow(s: Sol) returns (q: real)
    requires s.m >= 1 && s.n >= 1
    ensures var c := PosCount(s.flow, |s.flow|);
      q * (s.m + s.n - 1) as real == (s.m + s.n - 1 - c) as real
    ensures var c := PosCount(s.flow, |s.flow|);
      0 <= c <= s.m + s.n - 1 ==> 0.0 <= q <= 1.0
  {
    var count := CountPositive(s.flow);
    PosCountBounds(s.flow, |s.flow|);
    q := (s.n + s.m - 1 - count) as real / (s.n + s.m - 1) as real;
    DivTimes((s.n + s.m - 1 - count) as real, (s.n + s.m - 1) as real);
  }

  lemma DivTimes(a: real, b: real)
    requires b > 0.0
    ensures (a / b) * b == a
    ensures 0.0 <= a <= b ==> 0.0 <= a / b <= 1.0
  {
  }

  /** Whenever some but not all of the m+n-1 basic positions carry flow,
      the written code answers 0 while the intended fraction is positive;
      for example m = n = 2 with one arc in use gives 0 instead of 2/3. */
  lemma RelPosFlowDiscrepancy(N: int, c: int)
    requires 0 < c < N
    ensures JavaDiv(N - c, N) == 0
    ensures (N - c) as real / N as real > 0.0
  {
  }
}
