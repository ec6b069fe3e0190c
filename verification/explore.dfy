/** The middle part of setBasis: a depth-first walk from node 0 along the
    basic arcs that stores every node's predecessor in tree_p and its
    distance from node 0 in depth. */
module Explore {
  import opened FctpData
  import opened Solution
  import opened ArcGraph
  import opened Kruskal

  /** The nodes on the other side of node: the customers of a supplier,
      the suppliers of a customer. */
  function OppCount(inst: Instance, node: int): int {
    if node < inst.m then inst.n else inst.m
  }

  /** The k-th node on the other side of node. */
  function Opp(inst: Instance, node: int, k: int): int {
    if node < inst.m then inst.m + k else k
  }

  /** The arc between node and its k-th node on the other side, as the two
      loops of setBasis index it. */
  function OppArc(inst: Instance, node: int, k: int): int {
    if node < inst.m then node * inst.n + k else k * inst.n + (node - inst.m)
  }

  lemma OppFacts(inst: Instance, node: int, k: int)
    requires inst.m >= 1 && inst.n >= 1 && 0 <= node < inst.m + inst.n && 0 <= k < OppCount(inst, node)
    ensures var y := Opp(inst, node, k);
      && 0 <= y < inst.m + inst.n && y != node && (y < inst.m <==> node >= inst.m)
      && Adjacent(inst, node, y) && OppArc(inst, node, k) == ArcBetween(inst, node, y)
      && 0 <= OppArc(inst, node, k) < inst.m * inst.n
  {
    ArcBetweenEnds(inst, node, Opp(inst, node, k));
  }

  /** Every node adjacent to node is one of the nodes on its other side. */
  lemma OppAll(inst: Instance, node: int, y: int)
    requires inst.m >= 1 && inst.n >= 1 && 0 <= node < inst.m + inst.n && Adjacent(inst, node, y)
    ensures var k := if node < inst.m then y - inst.m else y;
      0 <= k < OppCount(inst, node) && Opp(inst, node, k) == y
  {
  }

  /** depth counts the steps from every node to node 0 along p. */
  ghost predicate Layered(p: seq<int>, depth: seq<int>) {
    && |p| >= 1 && |depth| == |p| && p[0] == -1 && depth[0] == 0
    && (forall x :: 0 <= x < |p| ==> depth[x] >= 0)
    && (forall x :: 0 < x < |p| ==> 0 <= p[x] < |p| && depth[x] == depth[p[x]] + 1)
  }

  /** What the walk has built so far: every node of A other than 0 hangs
      from an explored node by an arc of E, one level deeper. */
  ghost predicate Grown(inst: Instance, E: set<int>, explored: seq<bool>, p: seq<int>, depth: seq<int>, A: set<int>) {
    var N := inst.m + inst.n;
    && |explored| == N && |p| == N && |depth| == N
    && 0 in A && (forall x :: x in A ==> 0 <= x < N)
    && p[0] == -1 && depth[0] == 0
    && (forall x :: x in A ==> depth[x] >= 0)
    && (forall x :: x in A && x != 0 ==>
          0 <= p[x] < N && explored[p[x]] && Link(inst, E, x, p[x]) && depth[x] == depth[p[x]] + 1)
    && (forall x :: 0 <= x < N && explored[x] ==> x in A)
  }

  /** The nodes not yet explored. */
  ghost function Unexplored(explored: seq<bool>): set<int> {
    set x | 0 <= x < |explored| && !explored[x]
  }

  /** The second part of the walk's termination measure: the stack, plus a
      bonus while an explored node lies on top. */
  ghost function StackWeight(explored: seq<bool>, stack: seq<int>): nat
    requires forall i :: 0 <= i < |stack| ==> 0 <= stack[i] < |explored|
  {
    |stack| + if |stack| > 0 && explored[stack[|stack| - 1]] then 2 * |explored| + 2 else 0
  }

  /** The inner loops of the walk, for a node already marked explored:
      every unexplored node on the other side that a basic arc joins to
      node gets node as its predecessor and is pushed.  Java marks the node
      explored after these loops; the loops never read that node's mark. */
  method Scan(inst: Instance, st: seq<Status>, node: int, explored: seq<bool>, p: seq<int>, depth: seq<int>,
              stack: seq<int>, ghost A: set<int>)
    returns (p2: seq<int>, depth2: seq<int>, stack2: seq<int>, ghost A2: set<int>, ghost pushed: seq<int>)
    requires inst.m >= 1 && inst.n >= 1 && |st| == inst.m * inst.n
    requires Grown(inst, Basics(st), explored, p, depth, A)
    requires 0 <= node < inst.m + inst.n && explored[node] && explored[0]
    ensures Grown(inst, Basics(st), explored, p2, depth2, A2) && A <= A2
    ensures stack2 == stack + pushed && |pushed| <= inst.m + inst.n
    ensures forall y :: y in pushed ==> 0 <= y < inst.m + inst.n && !explored[y] && y in A2
    ensures forall y :: Link(inst, Basics(st), node, y) ==> explored[y] || y in pushed
  {
    p2, depth2, stack2, A2, pushed := p, depth, stack, A, [];
    var k := 0;
    while k < OppCount(inst, node)
      invariant ScanLoop(inst, st, node, explored, stack, A, k, p2, depth2, stack2, A2, pushed)
    {
      p2, depth2, stack2, A2, pushed := ScanStep(inst, st, node, explored, stack, A, k, p2, depth2, stack2, A2, pushed);
      k := k + 1;
    }
    ScanDone(inst, st, node, explored, stack, A, k, p2, depth2, stack2, A2, pushed);
  }

  /** What the scan of node's other side keeps after k of its nodes. */
  ghost predicate ScanLoop(inst: Instance, st: seq<Status>, node: int, explored: seq<bool>, stack: seq<int>, A: set<int>,
                           k: int, p2: seq<int>, depth2: seq<int>, stack2: seq<int>, A2: set<int>, pushed: seq<int>)
  {
    && inst.m >= 1 && inst.n >= 1 && |st| == inst.m * inst.n
    && 0 <= node < inst.m + inst.n && |explored| == inst.m + inst.n && explored[node] && explored[0]
    && 0 <= k <= OppCount(inst, node)
    && Grown(inst, Basics(st), explored, p2, depth2, A2) && A <= A2
    && stack2 == stack + pushed && |pushed| <= k
    && (forall y :: y in pushed ==> 0 <= y < inst.m + inst.n && !explored[y] && y in A2)
    && (forall k' :: 0 <= k' < k && Link(inst, Basics(st), node, Opp(inst, node, k')) ==>
          explored[Opp(inst, node, k')] || Opp(inst, node, k') in pushed)
  }

  /** The k-th node on node's other side: hung from node and pushed when it
      is unexplored and joined to node by a basic arc. */
  method ScanStep(inst: Instance, st: seq<Status>, node: int, explored: seq<bool>, stack: seq<int>, ghost A: set<int>,
                  k: int, p: seq<int>, depth: seq<int>, stk: seq<int>, ghost A1: set<int>, ghost pu: seq<int>)
    returns (p2: seq<int>, depth2: seq<int>, stack2: seq<int>, ghost A2: set<int>, ghost pushed: seq<int>)
    requires ScanLoop(inst, st, node, explored, stack, A, k, p, depth, stk, A1, pu) && k < OppCount(inst, node)
    ensures ScanLoop(inst, st, node, explored, stack, A, k + 1, p2, depth2, stack2, A2, pushed)
  {
    p2, depth2, stack2, A2, pushed := p, depth, stk, A1, pu;
    var i := Opp(inst, node, k);
    OppFacts(inst, node, k);
    if !explored[i] && st[OppArc(inst, node, k)] == Basic {
      p2 := p[i := node];
      depth2 := depth[i := depth[node] + 1];
      stack2 := stk + [i];
      A2 := A1 + {i};
      pushed := pu + [i];
      ScanPush(inst, st, node, explored, stack, A, k, p, depth, stk, A1, pu);
    } else {
      ScanSkip(inst, st, node, explored, stack, A, k, p, depth, stk, A1, pu);
    }
  }

  lemma ScanPush(inst: Instance, st: seq<Status>, node: int, explored: seq<bool>, stack: seq<int>, A: set<int>,
                 k: int, p: seq<int>, depth: seq<int>, stk: seq<int>, A1: set<int>, pu: seq<int>)
    requires ScanLoop(inst, st, node, explored, stack, A, k, p, depth, stk, A1, pu) && k < OppCount(inst, node)
    requires var i := Opp(inst, node, k); 0 <= i < |explored| && !explored[i] && 0 <= OppArc(inst, node, k) < |st|
    requires st[OppArc(inst, node, k)] == Basic
    ensures var i := Opp(inst, node, k);
      ScanLoop(inst, st, node, explored, stack, A, k + 1, p[i := node], depth[i := depth[node] + 1], stk + [i], A1 + {i}, pu + [i])
  {
    var i := Opp(inst, node, k);
    OppFacts(inst, node, k);
    LinkSym(inst, Basics(st), node, i);
    GrowAt(inst, Basics(st), explored, p, depth, A1, node, i);
    var pu2 := pu + [i];
    assert stk + [i] == stack + pu2;
    forall y | y in pu2
      ensures 0 <= y < inst.m + inst.n && !explored[y] && y in A1 + {i}
    {
      if y != i {
        assert y in pu;
      }
    }
    PushedCovers(inst, st, node, explored, k, pu, i);
  }

  /** Pushing the k-th node keeps every linked node among the first k + 1
      explored or pushed. */
  lemma PushedCovers(inst: Instance, st: seq<Status>, node: int, explored: seq<bool>, k: int, pu: seq<int>, i: int)
    requires i == Opp(inst, node, k) && 0 <= i < |explored|
    requires forall k' :: 0 <= k' < k && Link(inst, Basics(st), node, Opp(inst, node, k')) ==>
      0 <= Opp(inst, node, k') < |explored| && (explored[Opp(inst, node, k')] || Opp(inst, node, k') in pu)
    ensures forall k' :: 0 <= k' < k + 1 && Link(inst, Basics(st), node, Opp(inst, node, k')) ==>
      0 <= Opp(inst, node, k') < |explored| && (explored[Opp(inst, node, k')] || Opp(inst, node, k') in pu + [i])
  {
    assert (pu + [i])[|pu|] == i;
    forall k' | 0 <= k' < k && Link(inst, Basics(st), node, Opp(inst, node, k'))
      ensures explored[Opp(inst, node, k')] || Opp(inst, node, k') in pu + [i]
    {
      var y := Opp(inst, node, k');
      if !explored[y] {
        var j :| 0 <= j < |pu| && pu[j] == y;
        assert (pu + [i])[j] == y;
      }
    }
  }

  lemma ScanSkip(inst: Instance, st: seq<Status>, node: int, explored: seq<bool>, stack: seq<int>, A: set<int>,
                 k: int, p: seq<int>, depth: seq<int>, stk: seq<int>, A1: set<int>, pu: seq<int>)
    requires ScanLoop(inst, st, node, explored, stack, A, k, p, depth, stk, A1, pu) && k < OppCount(inst, node)
    requires var i := Opp(inst, node, k); 0 <= i < |explored| && 0 <= OppArc(inst, node, k) < |st|
    requires explored[Opp(inst, node, k)] || st[OppArc(inst, node, k)] != Basic
    ensures ScanLoop(inst, st, node, explored, stack, A, k + 1, p, depth, stk, A1, pu)
  {
    var i := Opp(inst, node, k);
    OppFacts(inst, node, k);
    assert explored[i] || !Link(inst, Basics(st), node, i);
  }

  lemma ScanDone(inst: Instance, st: seq<Status>, node: int, explored: seq<bool>, stack: seq<int>, A: set<int>,
                 k: int, p2: seq<int>, depth2: seq<int>, stack2: seq<int>, A2: set<int>, pushed: seq<int>)
    requires ScanLoop(inst, st, node, explored, stack, A, k, p2, depth2, stack2, A2, pushed) && k == OppCount(inst, node)
    ensures forall y :: Link(inst, Basics(st), node, y) ==> explored[y] || y in pushed
  {
    forall y | Link(inst, Basics(st), node, y)
      ensures explored[y] || y in pushed
    {
      OppAll(inst, node, y);
    }
  }

  /** Hanging an unexplored node i from the explored node by an arc of E
      keeps what the walk has built. */
  lemma GrowAt(inst: Instance, E: set<int>, explored: seq<bool>, p: seq<int>, depth: seq<int>, A: set<int>,
               node: int, i: int)
    requires Grown(inst, E, explored, p, depth, A) && 0 <= node < |p| && explored[node]
    requires 0 <= i < |p| && !explored[i] && explored[0] && Link(inst, E, i, node)
    ensures Grown(inst, E, explored, p[i := node], depth[i := depth[node] + 1], A + {i})
  {
  }

  lemma MarkExplored(inst: Instance, E: set<int>, explored: seq<bool>, p: seq<int>, depth: seq<int>, A: set<int>, node: int)
    requires Grown(inst, E, explored, p, depth, A) && node in A
    ensures Grown(inst, E, explored[node := true], p, depth, A)
  {
  }

  /** Popping a node and pushing its unexplored neighbours shrinks the
      measure: either a new node is explored, or an explored node leaves the
      top of the stack, and anything pushed instead is unexplored. */
  lemma WalkShrinks(explored: seq<bool>, stack: seq<int>, node: int, pushed: seq<int>)
    requires |stack| > 0 && node == stack[|stack| - 1]
    requires forall i :: 0 <= i < |stack| ==> 0 <= stack[i] < |explored|
    requires |pushed| <= |explored| && forall y :: y in pushed ==> 0 <= y < |explored| && !explored[y] && y != node
    ensures var ex2 := explored[node := true]; var s2 := stack[..|stack| - 1] + pushed;
      && (forall i :: 0 <= i < |s2| ==> 0 <= s2[i] < |ex2|)
      && (Unexplored(ex2) < Unexplored(explored)
          || (Unexplored(ex2) == Unexplored(explored) && StackWeight(ex2, s2) < StackWeight(explored, stack)))
  {
    var ex2 := explored[node := true];
    var s2 := stack[..|stack| - 1] + pushed;
    forall i | 0 <= i < |s2|
      ensures 0 <= s2[i] < |ex2|
    {
      if i >= |stack| - 1 {
        assert s2[i] in pushed;
      }
    }
    if !explored[node] {
      assert node in Unexplored(explored) && node !in Unexplored(ex2);
      assert Unexplored(ex2) <= Unexplored(explored);
    } else {
      assert ex2 == explored;
      if |pushed| > 0 {
        assert s2[|s2| - 1] == pushed[|pushed| - 1];
        assert s2[|s2| - 1] in pushed;
      }
    }
  }

  /** Once nothing is left on the stack, the explored nodes are closed under
      the arcs of E, so they include every node connected to node 0. */
  lemma {:induction false} ClosedReaches(inst: Instance, E: set<int>, explored: seq<bool>, w: seq<int>)
    requires |explored| == inst.m + inst.n && IsWalk(inst, E, w) && explored[w[0]]
    requires forall x, y :: 0 <= x < |explored| && explored[x] && Link(inst, E, x, y) ==> explored[y]
    ensures explored[w[|w| - 1]]
    decreases |w|
  {
    if |w| > 1 {
      assert Link(inst, E, w[0], w[1]);
      assert IsWalk(inst, E, w[1..]);
      ClosedReaches(inst, E, explored, w[1..]);
    }
  }

  /** What the walk keeps from one pop to the next. */
  ghost predicate WalkLoop(inst: Instance, E: set<int>, explored: seq<bool>, stack: seq<int>,
                           p: seq<int>, depth: seq<int>, A: set<int>)
  {
    var N := inst.m + inst.n;
    && Grown(inst, E, explored, p, depth, A)
    && (forall i :: 0 <= i < |stack| ==> 0 <= stack[i] < N && stack[i] in A)
    && (forall x, y :: 0 <= x < N && explored[x] && Link(inst, E, x, y) ==> explored[y] || y in stack)
    && (explored[0] || stack == [0])
  }

  /** One pop of the walk. */
  method WalkStep(inst: Instance, st: seq<Status>, explored: seq<bool>, stack: seq<int>,
                  p: seq<int>, depth: seq<int>, ghost A: set<int>)
    returns (ex2: seq<bool>, s2: seq<int>, p2: seq<int>, depth2: seq<int>, ghost A2: set<int>)
    requires inst.m >= 1 && inst.n >= 1 && |st| == inst.m * inst.n
    requires WalkLoop(inst, Basics(st), explored, stack, p, depth, A) && |stack| > 0
    ensures WalkLoop(inst, Basics(st), ex2, s2, p2, depth2, A2)
    ensures Unexplored(ex2) < Unexplored(explored)
      || (Unexplored(ex2) == Unexplored(explored) && StackWeight(ex2, s2) < StackWeight(explored, stack))
  {
    ghost var E := Basics(st);
    var node := stack[|stack| - 1];
    s2 := stack[..|stack| - 1];
    MarkExplored(inst, E, explored, p, depth, A, node);
    ex2 := explored[node := true];
    ghost var pushed;
    p2, depth2, s2, A2, pushed := Scan(inst, st, node, ex2, p, depth, s2, A);
    WalkShrinks(explored, stack, node, pushed);
    StepClosed(inst, E, explored, stack, node, pushed);
    StepStack(inst.m + inst.n, explored, stack, node, pushed, A, A2);
  }

  lemma StepClosed(inst: Instance, E: set<int>, explored: seq<bool>, stack: seq<int>, node: int, pushed: seq<int>)
    requires |explored| == inst.m + inst.n && |stack| > 0 && node == stack[|stack| - 1] && 0 <= node < |explored|
    requires forall x, y :: 0 <= x < |explored| && explored[x] && Link(inst, E, x, y) ==> explored[y] || y in stack
    requires forall y :: Link(inst, E, node, y) ==> explored[node := true][y] || y in pushed
    ensures var ex2 := explored[node := true]; var s2 := stack[..|stack| - 1] + pushed;
      forall x, y :: 0 <= x < |ex2| && ex2[x] && Link(inst, E, x, y) ==> ex2[y] || y in s2
  {
    var ex2 := explored[node := true];
    var s2 := stack[..|stack| - 1] + pushed;
    assert stack == stack[..|stack| - 1] + [node];
    forall x, y | 0 <= x < |ex2| && ex2[x] && Link(inst, E, x, y)
      ensures ex2[y] || y in s2
    {
      if x != node && !explored[y] {
        assert y in stack;
      }
    }
  }

  lemma StepStack(N: int, explored: seq<bool>, stack: seq<int>, node: int, pushed: seq<int>, A: set<int>, A2: set<int>)
    requires |explored| == N && |stack| > 0 && node == stack[|stack| - 1] && 0 <= node < N && A <= A2
    requires forall i :: 0 <= i < |stack| ==> 0 <= stack[i] < N && stack[i] in A
    requires forall y :: y in pushed ==> 0 <= y < N && y in A2
    requires explored[0] || stack == [0]
    ensures var s2 := stack[..|stack| - 1] + pushed;
      && (forall i :: 0 <= i < |s2| ==> 0 <= s2[i] < N && s2[i] in A2)
      && explored[node := true][0]
  {
    var s2 := stack[..|stack| - 1] + pushed;
    forall i | 0 <= i < |s2|
      ensures 0 <= s2[i] < N && s2[i] in A2
    {
      if i >= |stack| - 1 {
        assert s2[i] in pushed;
      }
    }
  }

  /** At the end of the walk every node connected to node 0 is explored,
      and so has been given its predecessor and depth. */
  lemma WalkDone(inst: Instance, E: set<int>, explored: seq<bool>, p: seq<int>, depth: seq<int>, A: set<int>)
    requires WalkLoop(inst, E, explored, [], p, depth, A)
    requires forall x :: 0 <= x < inst.m + inst.n ==> Connected(inst, E, x, 0)
    requires inst.m >= 1 && inst.n >= 1
    ensures Layered(p, depth) && |p| == inst.m + inst.n
    ensures forall x :: 0 < x < |p| ==> Link(inst, E, x, p[x])
  {
    forall x | 0 <= x < inst.m + inst.n
      ensures x in A
    {
      ConnectedSym(inst, E, x, 0);
      var w :| IsWalk(inst, E, w) && w[0] == 0 && w[|w| - 1] == x;
      ClosedReaches(inst, E, explored, w);
    }
  }

  /** Java's walk from node 0: pop a node, hang every unexplored neighbour
      joined to it by a basic arc from it, push those, mark the node explored.
      When the basic arcs connect every node to node 0, every node gets a
      predecessor joined to it by a basic arc and its distance from node 0. */
  method Walk(inst: Instance, st: seq<Status>, p0: seq<int>, d0: seq<int>) returns (p: seq<int>, depth: seq<int>)
    requires inst.m >= 1 && inst.n >= 1 && |st| == inst.m * inst.n
    requires |p0| == inst.m + inst.n && |d0| == inst.m + inst.n
    requires forall x :: 0 <= x < inst.m + inst.n ==> Connected(inst, Basics(st), x, 0)
    ensures Layered(p, depth) && |p| == inst.m + inst.n
    ensures forall x :: 0 < x < |p| ==> Link(inst, Basics(st), x, p[x])
  {
    var N := inst.m + inst.n;
    p := p0[0 := -1];
    depth := d0[0 := 0];
    var explored := seq(N, _ => false);
    var stack := [0];
    ghost var A: set<int> := {0};
    assert WalkLoop(inst, Basics(st), explored, stack, p, depth, A);
    while |stack| > 0
      invariant WalkLoop(inst, Basics(st), explored, stack, p, depth, A)
      decreases Unexplored(explored), StackWeight(explored, stack)
    {
      explored, stack, p, depth, A := WalkStep(inst, st, explored, stack, p, depth, A);
    }
    WalkDone(inst, Basics(st), explored, p, depth, A);
  }
}
